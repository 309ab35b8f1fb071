/** A tunnel configuration with the comments its text carried (conf/config.go). */
module Config {
  import opened Netip
  import opened Bytes

  const KEY_LENGTH: nat := 32

  type Key = k: seq<Byte> | |k| == KEY_LENGTH witness Zeros(KEY_LENGTH)

  const ZERO_KEY: Key := Zeros(KEY_LENGTH)
  type UInt16 = n: nat | n < 0x1_0000

  datatype Endpoint = Endpoint(host: string, port: UInt16) {
    predicate IsEmpty() { host == "" }
  }

  datatype Comments = Comments(before: seq<string>, suffix: string)

  /** The keys of the two sections; the spelling of each is what the writer prints. */
  datatype ConfKey =
    | PrivateKey | ListenPort | Address | DNS | MTU | PreUp | PostUp | PreDown | PostDown | Table
    | PublicKey | PresharedKey | AllowedIPs | EndpointKey | PersistentKeepalive

  function Spelling(key: ConfKey): string {
    match key
    case PrivateKey => "PrivateKey"
    case ListenPort => "ListenPort"
    case Address => "Address"
    case DNS => "DNS"
    case MTU => "MTU"
    case PreUp => "PreUp"
    case PostUp => "PostUp"
    case PreDown => "PreDown"
    case PostDown => "PostDown"
    case Table => "Table"
    case PublicKey => "PublicKey"
    case PresharedKey => "PresharedKey"
    case AllowedIPs => "AllowedIPs"
    case EndpointKey => "Endpoint"
    case PersistentKeepalive => "PersistentKeepalive"
  }

  /** Comments are kept by key: a line whose key is unknown is an error, so no other key can own any. */
  datatype SectionComments = SectionComments(header: Comments, lines: map<ConfKey, Comments>)

  datatype Interface = Interface(
    privateKey: Key,
    addresses: seq<Prefix>,
    listenPort: UInt16,
    mtu: UInt16,
    dns: seq<Addr>,
    dnsSearch: seq<string>,
    preUp: string,
    postUp: string,
    preDown: string,
    postDown: string,
    tableOff: bool,
    comments: SectionComments)

  datatype Peer = Peer(
    publicKey: Key,
    presharedKey: Key,
    allowedIPs: seq<Prefix>,
    endpoint: Endpoint,
    persistentKeepalive: UInt16,
    comments: SectionComments)

  datatype Config = Config(name: string, interface: Interface, peers: seq<Peer>, trailingComments: seq<string>)

  const NO_COMMENTS: Comments := Comments([], "")
  const NO_SECTION_COMMENTS: SectionComments := SectionComments(NO_COMMENTS, map[])
  const EMPTY_INTERFACE: Interface :=
    Interface(ZERO_KEY, [], 0, 0, [], [], "", "", "", "", false, NO_SECTION_COMMENTS)
  const EMPTY_PEER: Peer := Peer(ZERO_KEY, ZERO_KEY, [], Endpoint("", 0), 0, NO_SECTION_COMMENTS)

  /** Reading a Go map: an absent key has the zero value. */
  function Lookup(lines: map<ConfKey, Comments>, key: ConfKey): Comments {
    if key in lines then lines[key] else NO_COMMENTS
  }
}
