/** The shared ring of log lines (ringlogger/ringlogger.go). One write is taken to be atomic. */
module RingLogger {
  import opened Bytes
  import opened Wrappers

  const MAX_LOG_LINE_LENGTH: nat := 512
  const MAX_TAG_LENGTH: nat := 5
  const MAX_LINES: nat := 2048
  const CURSOR_ALL: nat := 0xffff_ffff
  const WRAP: nat := 0x1_0000_0000

  type Text = seq<Byte>

  datatype LogLine = LogLine(timeNs: int, line: Text)

  /** What readers are given. */
  datatype Entry = Entry(timeNs: int, text: Text)

  /** The longest prefix without a NUL; bytes.IndexByte is its length, if there is a NUL at all. */
  function UpToNul(s: Text): (r: Text)
    ensures |r| <= |s| && r == s[..|r|] && 0 !in r
    ensures |r| < |s| ==> s[|r|] == 0
  {
    if s == [] || s[0] == 0 then [] else [s[0]] + UpToNul(s[1..])
  }

  // ---------------------------------------------------------------- one line

  /** How much of a text fits next to the tag. */
  function Fitting(tag: Text, p: Text): Text
    requires |tag| <= MAX_TAG_LENGTH
  {
    if 3 + |p| + |tag| > MAX_LOG_LINE_LENGTH - 1 then p[..MAX_LOG_LINE_LENGTH - 1 - 3 - |tag|] else p
  }

  /** What is kept is the longest beginning that leaves room for the brackets, the space and a NUL in 512 bytes. */
  lemma FittingIsLongest(tag: Text, p: Text)
    requires |tag| <= MAX_TAG_LENGTH
    ensures var kept := Fitting(tag, p);
            && kept <= p && 1 + |tag| + 2 + |kept| + 1 <= 512
            && forall longer: Text | longer <= p && 1 + |tag| + 2 + |longer| + 1 <= 512 :: longer <= kept
  {
    var kept := Fitting(tag, p);
    forall longer: Text | longer <= p && 1 + |tag| + 2 + |longer| + 1 <= 512
      ensures longer <= kept
    {
      assert |longer| <= |kept|;
      assert longer == p[..|longer|] && kept == p[..|kept|];
    }
  }

  /** The text of a line: the tag in brackets, a space, and what fits. */
  function Shown(tag: Text, p: Text): (s: Text)
    requires |tag| <= MAX_TAG_LENGTH
    ensures 3 <= |s| < MAX_LOG_LINE_LENGTH
  {
    ['[' as int] + tag + [']' as int, ' ' as int] + Fitting(tag, p)
  }

  function Padded(s: Text): (line: Text)
    requires |s| <= MAX_LOG_LINE_LENGTH
    ensures |line| == MAX_LOG_LINE_LENGTH
  {
    s + Zeros(MAX_LOG_LINE_LENGTH - |s|)
  }

  /** A line as it is stored. */
  function Stored(tag: Text, e: Entry): LogLine
    requires |tag| <= MAX_TAG_LENGTH
  {
    LogLine(e.timeNs, Padded(Shown(tag, e.text)))
  }

  // ---------------------------------------------------------------- reading

  datatype Log = Log(lines: seq<LogLine>, nextIndex: nat) {
    ghost predicate WellFormed() { |lines| == MAX_LINES && nextIndex < WRAP }
  }

  /** What one slot contributes to a listing. */
  function Listed(l: LogLine): seq<Entry> {
    var text := UpToNul(l.line);
    if l.timeNs == 0 || |text| < 1 || |text| == |l.line| then [] else [Entry(l.timeNs, text)]
  }

  /** The n slots from slot i on, in ring order. */
  function ListFrom(lines: seq<LogLine>, i: nat, n: nat): seq<Entry>
    requires |lines| == MAX_LINES
    decreases n
  {
    if n == 0 then [] else Listed(lines[i % MAX_LINES]) + ListFrom(lines, i + 1, n - 1)
  }

  /** The loop of FollowFromCursor: n turns left, at slot i. */
  function FollowLoop(log: Log, cursor: nat, i: nat, n: nat, next: nat): (r: (seq<Entry>, nat))
    requires log.WellFormed()
    ensures r.1 == next || r.1 < MAX_LINES
    decreases n
  {
    if n == 0 then ([], next)
    else
      var l := log.lines[i % MAX_LINES];
      if cursor != CURSOR_ALL && i % MAX_LINES == log.nextIndex % MAX_LINES then ([], next)
      else if l.timeNs == 0 then
        if cursor == CURSOR_ALL then FollowLoop(log, cursor, (i + 1) % WRAP, n - 1, next) else ([], next)
      else
        var (more, last) := FollowLoop(log, cursor, (i + 1) % WRAP, n - 1, (i + 1) % WRAP % MAX_LINES);
        (Followed(l) + more, last)
  }

  /** A followed line is listed even without a NUL, since its index is then -1 and not positive: it is skipped too. */
  function Followed(l: LogLine): seq<Entry> {
    var text := UpToNul(l.line);
    if |text| > 0 && |text| < |l.line| then [Entry(l.timeNs, text)] else []
  }

  function Follow(log: Log, cursor: nat): (r: (seq<Entry>, nat))
    requires log.WellFormed() && cursor < WRAP
    ensures r.1 < WRAP
  {
    FollowLoop(log, cursor, if cursor == CURSOR_ALL then log.nextIndex else cursor, MAX_LINES, cursor)
  }

  // ---------------------------------------------------------------- what the ring holds

  /** The ring after the writes of `history`: the k-th write sits in slot k modulo the size of the ring until it is
      overwritten, and slots never written are blank. */
  ghost predicate Holds(log: Log, tag: Text, history: seq<Entry>) {
    && |tag| <= MAX_TAG_LENGTH
    && log.WellFormed()
    && log.nextIndex == |history| % WRAP
    && (forall k | 0 <= k < |history| && |history| - MAX_LINES <= k :: log.lines[k % MAX_LINES] == Stored(tag, history[k]))
    && (forall j | |history| <= j < MAX_LINES :: log.lines[j] == LogLine(0, Zeros(MAX_LOG_LINE_LENGTH)))
  }

  /** Writers that write no NUL. */
  ghost predicate NulFree(tag: Text, history: seq<Entry>) {
    0 !in tag && forall k | 0 <= k < |history| :: 0 !in history[k].text
  }

  ghost predicate Stamped(history: seq<Entry>) { forall k | 0 <= k < |history| :: history[k].timeNs != 0 }

  /** Writers that write no NUL and stamp their lines. */
  ghost predicate Ordinary(tag: Text, history: seq<Entry>) { NulFree(tag, history) && Stamped(history) }

  function ShownAll(tag: Text, es: seq<Entry>): (r: seq<Entry>)
    requires |tag| <= MAX_TAG_LENGTH
    ensures |r| == |es|
  {
    if es == [] then [] else [Entry(es[0].timeNs, Shown(tag, es[0].text))] + ShownAll(tag, es[1..])
  }

  lemma {:induction false} ShownAllConcat(tag: Text, a: seq<Entry>, b: seq<Entry>)
    requires |tag| <= MAX_TAG_LENGTH
    ensures ShownAll(tag, a + b) == ShownAll(tag, a) + ShownAll(tag, b)
  {
    hide Shown, ShownAll;
    if a == [] {
      assert a + b == b;
    } else {
      ShownAllConcat(tag, a[1..], b);
      assert (a + b)[1..] == a[1..] + b && (a + b)[0] == a[0];
      ShownAllFirst(tag, a + b);
      ShownAllFirst(tag, a);
    }
  }

  lemma {:induction false} ShownAllFirst(tag: Text, es: seq<Entry>)
    requires |tag| <= MAX_TAG_LENGTH && es != []
    ensures ShownAll(tag, es) == [Entry(es[0].timeNs, Shown(tag, es[0].text))] + ShownAll(tag, es[1..])
  {
  }

  lemma {:induction false} UpToNulOfEnded(s: Text, rest: Text)
    requires 0 !in s && |rest| > 0 && rest[0] == 0
    ensures UpToNul(s + rest) == s
  {
    if s == [] {
      assert s + rest == rest;
    } else {
      UpToNulOfEnded(s[1..], rest);
      assert (s + rest)[1..] == s[1..] + rest;
    }
  }

  lemma {:induction false} ShownWithoutNul(tag: Text, p: Text)
    requires |tag| <= MAX_TAG_LENGTH && 0 !in tag && 0 !in p
    ensures 0 !in Shown(tag, p)
  {
  }

  lemma PaddedIs(s: Text)
    requires |s| <= MAX_LOG_LINE_LENGTH
    ensures Padded(s) == s + Zeros(MAX_LOG_LINE_LENGTH - |s|)
  {
  }

  /** An ordinary line reads back as what was shown of it. */
  lemma {:induction false} StoredReads(tag: Text, e: Entry)
    requires |tag| <= MAX_TAG_LENGTH && 0 !in tag && e.timeNs != 0 && 0 !in e.text
    ensures Listed(Stored(tag, e)) == [Entry(e.timeNs, Shown(tag, e.text))]
    ensures Followed(Stored(tag, e)) == [Entry(e.timeNs, Shown(tag, e.text))]
  {
    hide Shown, Padded, UpToNul;
    ShownWithoutNul(tag, e.text);
    UpToNulOfEnded(Shown(tag, e.text), Zeros(MAX_LOG_LINE_LENGTH - |Shown(tag, e.text)|));
    PaddedIs(Shown(tag, e.text));
  }

  lemma BlankReads()
    ensures Listed(LogLine(0, Zeros(MAX_LOG_LINE_LENGTH))) == []
  {
  }

  // ---------------------------------------------------------------- writing

  /** One write of a text that is not blank. */
  function Written(log: Log, tag: Text, e: Entry): (r: Log)
    requires log.WellFormed() && |tag| <= MAX_TAG_LENGTH
    ensures r.WellFormed()
  {
    Log(log.lines[log.nextIndex % MAX_LINES := Stored(tag, e)], (log.nextIndex + 1) % WRAP)
  }

  function BlankLines(n: nat): (r: seq<LogLine>)
    ensures |r| == n && forall i | 0 <= i < n :: r[i] == LogLine(0, Zeros(MAX_LOG_LINE_LENGTH))
  {
    if n == 0 then [] else [LogLine(0, Zeros(MAX_LOG_LINE_LENGTH))] + BlankLines(n - 1)
  }

  /** The ring after a run of writes, from a freshly zeroed file. */
  function After(tag: Text, history: seq<Entry>): (log: Log)
    requires |tag| <= MAX_TAG_LENGTH
    ensures log.WellFormed()
  {
    if history == [] then Log(BlankLines(MAX_LINES), 0)
    else Written(After(tag, history[..|history| - 1]), tag, history[|history| - 1])
  }

  /** 2048 divides 2^32, so a wrap of the counter does not move the slot. */
  lemma {:induction false} SlotOfCounter(k: nat)
    ensures k % WRAP % MAX_LINES == k % MAX_LINES
  {
    assert k == (k / WRAP * (WRAP / MAX_LINES)) * MAX_LINES + k % WRAP;
    assert WRAP == WRAP / MAX_LINES * MAX_LINES;
    ModPlus(k % WRAP, k / WRAP * (WRAP / MAX_LINES));
  }

  lemma {:induction false} ModPlus(a: nat, m: nat)
    ensures (m * MAX_LINES + a) % MAX_LINES == a % MAX_LINES
  {
  }

  /** Two numbers less than a ring apart share a slot only if they are equal. */
  lemma {:induction false} SlotsApart(a: nat, b: nat)
    requires a <= b < a + MAX_LINES && a % MAX_LINES == b % MAX_LINES
    ensures a == b
  {
  }

  lemma {:induction false} WrittenHolds(log: Log, tag: Text, history: seq<Entry>, e: Entry)
    requires Holds(log, tag, history)
    ensures Holds(Written(log, tag, e), tag, history + [e])
  {
    hide Stored, Zeros;
    var n := |history|;
    var after := Written(log, tag, e);
    SlotOfCounter(n);
    forall k | 0 <= k < n + 1 && n + 1 - MAX_LINES <= k
      ensures after.lines[k % MAX_LINES] == Stored(tag, (history + [e])[k])
    {
      if k < n && k % MAX_LINES == n % MAX_LINES { SlotsApart(k, n); }
    }
  }

  /** Every run of writes leaves the last 2048 of them in the ring, however often the counter wrapped. */
  lemma {:induction false} AfterHolds(tag: Text, history: seq<Entry>)
    requires |tag| <= MAX_TAG_LENGTH
    ensures Holds(After(tag, history), tag, history)
  {
    hide Holds, Written, Stored;
    if history == [] {
      BlankHolds(tag);
    } else {
      var before := history[..|history| - 1];
      AfterHolds(tag, before);
      WrittenHolds(After(tag, before), tag, before, history[|history| - 1]);
      assert before + [history[|history| - 1]] == history;
    }
  }

  lemma {:induction false} BlankHolds(tag: Text)
    requires |tag| <= MAX_TAG_LENGTH
    ensures Holds(Log(BlankLines(MAX_LINES), 0), tag, [])
  {
    hide Zeros, Stored;
  }

  // ---------------------------------------------------------------- listings

  function Oldest(n: nat): nat { if n < MAX_LINES then 0 else n - MAX_LINES }

  /** A stretch of slots that all hold writes lists just those writes. */
  lemma {:induction false} ListStretch(log: Log, tag: Text, history: seq<Entry>, from: nat, n: nat)
    requires Holds(log, tag, history) && Ordinary(tag, history)
    requires Oldest(|history|) <= from && from + n <= |history|
    ensures ListFrom(log.lines, from, n) == ShownAll(tag, history[from..from + n])
    decreases n
  {
    hide Stored, Listed, Shown;
    if n > 0 {
      StoredReads(tag, history[from]);
      assert log.lines[from % MAX_LINES] == Stored(tag, history[from]);
      ListStretch(log, tag, history, from + 1, n - 1);
      assert history[from..from + n][1..] == history[from + 1..from + n];
    }
  }

  /** A stretch of slots never written lists nothing. */
  lemma {:induction false} ListBlank(log: Log, tag: Text, history: seq<Entry>, from: nat, n: nat)
    requires Holds(log, tag, history) && |history| <= from && from + n <= MAX_LINES
    ensures ListFrom(log.lines, from, n) == []
    decreases n
  {
    hide Stored, Listed;
    if n > 0 {
      BlankReads();
      assert from % MAX_LINES == from;
      ListBlank(log, tag, history, from + 1, n - 1);
    }
  }

  lemma {:induction false} ListSplit(lines: seq<LogLine>, i: nat, m: nat, n: nat)
    requires |lines| == MAX_LINES
    ensures ListFrom(lines, i, m + n) == ListFrom(lines, i, m) + ListFrom(lines, i + m, n)
    decreases m
  {
    hide Listed, ListFrom;
    if m == 0 {
      ListFromNothing(lines, i);
    } else {
      ListFirst(lines, i, m);
      ListFirst(lines, i, m + n);
      ListSplit(lines, i + 1, m - 1, n);
    }
  }

  lemma {:induction false} ListFirst(lines: seq<LogLine>, i: nat, n: nat)
    requires |lines| == MAX_LINES && n > 0
    ensures ListFrom(lines, i, n) == Listed(lines[i % MAX_LINES]) + ListFrom(lines, i + 1, n - 1)
  {
  }

  /** Only the slot matters, not how often the counter went round. */
  lemma {:induction false} ListSlot(lines: seq<LogLine>, i: nat, j: nat, n: nat)
    requires |lines| == MAX_LINES && i % MAX_LINES == j % MAX_LINES
    ensures ListFrom(lines, i, n) == ListFrom(lines, j, n)
    decreases n
  {
    hide Listed;
    if n > 0 {
      ModSucc(i); ModSucc(j);
      ListSlot(lines, i + 1, j + 1, n - 1);
    }
  }

  lemma ModSucc(i: nat)
    ensures (i + 1) % MAX_LINES == if i % MAX_LINES == MAX_LINES - 1 then 0 else i % MAX_LINES + 1
  {
  }

  /** WriteTo lists the last 2048 lines, or all of them if there are fewer, oldest first. */
  lemma {:induction false} ListingIsTail(log: Log, tag: Text, history: seq<Entry>)
    requires Holds(log, tag, history) && Ordinary(tag, history)
    ensures ListFrom(log.lines, log.nextIndex, MAX_LINES) == ShownAll(tag, history[Oldest(|history|)..])
    ensures Oldest(|history|) == if |history| < 2048 then 0 else |history| - 2048
  {
    hide ShownAll, ListFrom, Ordinary, Stored, Zeros;
    var n := |history|;
    SlotOfCounter(n);
    if n < MAX_LINES {
      ListSplit(log.lines, n, MAX_LINES - n, n);
      ListBlank(log, tag, history, n, MAX_LINES - n);
      ListSlot(log.lines, MAX_LINES, 0, n);
      ListStretch(log, tag, history, 0, n);
      assert history[0..0 + n] == history[0..];
    } else {
      assert n == n - MAX_LINES + MAX_LINES;
      ModPlus(n - MAX_LINES, 1);
      ListSlot(log.lines, log.nextIndex, n - MAX_LINES, MAX_LINES);
      ListStretch(log, tag, history, n - MAX_LINES, MAX_LINES);
      assert history[n - MAX_LINES..n - MAX_LINES + MAX_LINES] == history[n - MAX_LINES..];
    }
  }

  // ---------------------------------------------------------------- following

  /** The first line from `from` on that is stamped zero, or the end. */
  function FirstZero(history: seq<Entry>, from: nat): (z: nat)
    requires from <= |history|
    ensures from <= z <= |history|
    ensures forall k | from <= k < z :: history[k].timeNs != 0
    ensures z < |history| ==> history[z].timeNs == 0
    decreases |history| - from
  {
    if from == |history| || history[from].timeNs == 0 then from else FirstZero(history, from + 1)
  }

  /** From the slot of write `from`, a follower takes the writes up to the first one stamped zero, or up to the last, and
      stops at the slot after them. */
  lemma {:induction false} FollowStretch(log: Log, tag: Text, history: seq<Entry>, cursor: nat, i: nat, from: nat, n: nat, next: nat)
    requires Holds(log, tag, history) && NulFree(tag, history)
    requires cursor < WRAP && cursor != CURSOR_ALL && i % MAX_LINES == from % MAX_LINES
    requires |history| - MAX_LINES < from <= |history| && |history| - from < n
    ensures var z := FirstZero(history, from);
            FollowLoop(log, cursor, i, n, next) == (ShownAll(tag, history[from..z]), if z == from then next else z % MAX_LINES)
    decreases n
  {
    hide Stored, Followed, Shown, ListFrom;
    SlotOfCounter(|history|);
    var z := FirstZero(history, from);
    if from < |history| {
      var l := log.lines[from % MAX_LINES];
      assert l == Stored(tag, history[from]);
      StampOf(tag, history[from]);
      if from % MAX_LINES == |history| % MAX_LINES { SlotsApart(from, |history|); }
      if z > from {
        StoredReads(tag, history[from]);
        ModSucc(i); ModSucc(from);
        SlotOfCounter(i + 1);
        FollowStretch(log, tag, history, cursor, (i + 1) % WRAP, from + 1, n - 1, (from + 1) % MAX_LINES);
        assert history[from..z][1..] == history[from + 1..z];
      }
    }
  }

  lemma StampOf(tag: Text, e: Entry)
    requires |tag| <= MAX_TAG_LENGTH
    ensures Stored(tag, e).timeNs == e.timeNs
  {
  }

  /** The number of lines since the last poll, modulo the size of the ring. */
  function Gap(n: nat, seen: nat): (g: nat)
    requires seen <= n
    ensures g <= n - seen && g < MAX_LINES && (g == n - seen <==> n - seen < MAX_LINES)
  {
    (n - seen) % MAX_LINES
  }

  /** A poll from the slot where the last one stopped looks at the last g lines, g being the number of lines written
      since modulo the size of the ring, and delivers them up to the first one stamped zero. */
  lemma {:induction false} FollowFrom(log: Log, tag: Text, history: seq<Entry>, cursor: nat, seen: nat)
    requires Holds(log, tag, history) && NulFree(tag, history)
    requires seen <= |history| && cursor < WRAP && cursor != CURSOR_ALL && cursor % MAX_LINES == seen % MAX_LINES
    ensures var from := |history| - Gap(|history|, seen);
            var z := FirstZero(history, from);
            Follow(log, cursor) == (ShownAll(tag, history[from..z]), if z == from then cursor else z % MAX_LINES)
  {
    hide FollowLoop, ShownAll, NulFree, Holds, FirstZero;
    var g := Gap(|history|, seen);
    var from := |history| - g;
    assert from == (|history| - seen) / MAX_LINES * MAX_LINES + seen;
    ModPlus(seen, (|history| - seen) / MAX_LINES);
    FollowStretch(log, tag, history, cursor, cursor, from, MAX_LINES, cursor);
  }

  /** The first poll takes what a listing shows, whatever the ring holds. */
  lemma {:induction false} FollowAllIsListing(log: Log, i: nat, n: nat, next: nat)
    requires log.WellFormed()
    ensures FollowLoop(log, CURSOR_ALL, i, n, next).0 == ListFrom(log.lines, i, n)
    decreases n
  {
    if n > 0 {
      FollowedOrListed(log.lines[i % MAX_LINES]);
      SlotOfCounter(i + 1);
      FollowAllIsListing(log, (i + 1) % WRAP, n - 1, next);
      FollowAllIsListing(log, (i + 1) % WRAP, n - 1, (i + 1) % WRAP % MAX_LINES);
      ListSlot(log.lines, (i + 1) % WRAP, i + 1, n - 1);
    }
  }

  lemma FollowedOrListed(l: LogLine)
    ensures Listed(l) == if l.timeNs == 0 then [] else Followed(l)
  {
  }

  /** The first poll ends one past the last slot, if that slot is stamped. */
  lemma {:induction false} FollowAllEnds(log: Log, i: nat, n: nat, next: nat)
    requires log.WellFormed() && n > 0
    requires log.lines[(i + n - 1) % MAX_LINES].timeNs != 0
    ensures FollowLoop(log, CURSOR_ALL, i, n, next).1 == (i + n) % MAX_LINES
    decreases n
  {
    hide Followed, FollowLoop;
    FollowTurn(log, CURSOR_ALL, i, n, next);
    SlotOfCounter(i + 1);
    var j := (i + 1) % WRAP;
    if n == 1 {
      FollowNoTurns(log, CURSOR_ALL, j, j % MAX_LINES);
    } else {
      SameSlot(j, i + 1, n - 2);
      SameSlot(j, i + 1, n - 1);
      FollowAllEnds(log, j, n - 1, next);
      FollowAllEnds(log, j, n - 1, j % MAX_LINES);
    }
  }

  lemma {:induction false} SameSlot(i: nat, j: nat, n: nat)
    requires i % MAX_LINES == j % MAX_LINES
    ensures (i + n) % MAX_LINES == (j + n) % MAX_LINES
  {
    assert i + n == i / MAX_LINES * MAX_LINES + (i % MAX_LINES + n);
    assert j + n == j / MAX_LINES * MAX_LINES + (j % MAX_LINES + n);
    ModPlus(i % MAX_LINES + n, i / MAX_LINES);
    ModPlus(j % MAX_LINES + n, j / MAX_LINES);
  }

  /** If every slot is blank, the first poll leaves the cursor where it was. */
  lemma {:induction false} FollowNothing(log: Log, i: nat, n: nat, next: nat)
    requires log.WellFormed() && forall j | 0 <= j < MAX_LINES :: log.lines[j].timeNs == 0
    ensures FollowLoop(log, CURSOR_ALL, i, n, next) == ([], next)
    decreases n
  {
    if n > 0 { FollowNothing(log, (i + 1) % WRAP, n - 1, next); }
  }

  // ---------------------------------------------------------------- successive polls

  /** Where a follower that has taken the first `seen` lines stands. */
  ghost predicate Caught(cursor: nat, seen: nat) {
    if seen == 0 && cursor == CURSOR_ALL then true else cursor < MAX_LINES && cursor == seen % MAX_LINES
  }

  lemma {:induction false} FirstPoll(log: Log, tag: Text, history: seq<Entry>)
    requires Holds(log, tag, history) && Ordinary(tag, history)
    ensures var (es, cursor) := Follow(log, CURSOR_ALL);
            es == ShownAll(tag, history[Oldest(|history|)..]) && Caught(cursor, |history|)
  {
    hide FollowLoop, ListFrom, ShownAll, Stored, Zeros;
    var n := |history|;
    ListingIsTail(log, tag, history);
    FollowAllIsListing(log, log.nextIndex, MAX_LINES, CURSOR_ALL);
    if n == 0 {
      FollowNothing(log, log.nextIndex, MAX_LINES, CURSOR_ALL);
    } else {
      var last := n - 1;
      StampOf(tag, history[last]);
      assert log.lines[last % MAX_LINES] == Stored(tag, history[last]);
      assert last % MAX_LINES == (log.nextIndex + MAX_LINES - 1) % MAX_LINES by {
        SlotOfCounter(n);
        SameSlot(log.nextIndex, n, MAX_LINES - 1);
        ModPlus(last, 1);
      }
      FollowAllEnds(log, log.nextIndex, MAX_LINES, CURSOR_ALL);
      SlotOfCounter(n);
      ModPlus(log.nextIndex, 1);
    }
  }

  /** One poll. With fewer than 2048 lines since the last one it delivers exactly those up to the first one stamped zero,
      and leaves the cursor there. */
  lemma {:induction false} PollDelivers(log: Log, tag: Text, history: seq<Entry>, cursor: nat, seen: nat)
    requires Holds(log, tag, history) && NulFree(tag, history)
    requires seen <= |history| < seen + MAX_LINES && Caught(cursor, seen) && cursor != CURSOR_ALL
    ensures var (es, next) := Follow(log, cursor);
            var z := FirstZero(history, seen);
            es == ShownAll(tag, history[seen..z]) && next != CURSOR_ALL && Caught(next, z)
  {
    hide Follow, ShownAll, Holds, NulFree, FirstZero;
    FollowFrom(log, tag, history, cursor, seen);
  }

  /** With all lines stamped it delivers every line since the last poll. */
  lemma {:induction false} NextPoll(log: Log, tag: Text, history: seq<Entry>, cursor: nat, seen: nat)
    requires Holds(log, tag, history) && Ordinary(tag, history)
    requires seen <= |history| < seen + MAX_LINES && Caught(cursor, seen)
    ensures var (es, next) := Follow(log, cursor);
            es == ShownAll(tag, history[seen..]) && Caught(next, |history|)
  {
    hide Follow, ShownAll, Holds, NulFree;
    if cursor == CURSOR_ALL {
      FirstPoll(log, tag, history);
    } else {
      PollDelivers(log, tag, history, cursor, seen);
      assert FirstZero(history, seen) == |history| && history[seen..|history|] == history[seen..];
    }
  }

  /** A poll delivers the lines since the last one if and only if there were fewer than 2048 of them and none is stamped
      zero. */
  lemma {:induction false} PollCompleteIff(log: Log, tag: Text, history: seq<Entry>, cursor: nat, seen: nat)
    requires Holds(log, tag, history) && NulFree(tag, history)
    requires seen <= |history| && Caught(cursor, seen) && cursor != CURSOR_ALL
    ensures Follow(log, cursor).0 == ShownAll(tag, history[seen..]) <==>
            |history| - seen < 2048 && forall k | seen <= k < |history| :: history[k].timeNs != 0
  {
    hide Follow, NulFree, Shown, Gap, Stored, Zeros;
    FollowFrom(log, tag, history, cursor, seen);
    var from := |history| - Gap(|history|, seen);
    var z := FirstZero(history, from);
    assert |ShownAll(tag, history[from..z])| == z - from;
    assert |ShownAll(tag, history[seen..])| == |history| - seen;
    if z == |history| && from == seen { assert history[from..z] == history[seen..]; }
  }

  /** What a line stamped zero holds up stays held up: further polls deliver nothing while the line is in the ring. */
  lemma {:induction false} HeldUp(log: Log, tag: Text, history: seq<Entry>, log': Log, history': seq<Entry>, cursor: nat, seen: nat)
    requires Holds(log, tag, history) && Holds(log', tag, history') && NulFree(tag, history') && history <= history'
    requires seen <= |history| < seen + MAX_LINES && Caught(cursor, seen) && cursor != CURSOR_ALL
    requires var z := FirstZero(history, seen); z < |history| && |history'| < z + MAX_LINES
    ensures var next := Follow(log, cursor).1; Follow(log', next) == ([], next)
  {
    hide Follow, Holds, Shown;
    HoldsShape(log, tag, history);
    HoldsShape(log', tag, history');
    assert NulFree(tag, history) by { assert forall k | 0 <= k < |history| :: history[k] == history'[k]; }
    var z := FirstZero(history, seen);
    PollDelivers(log, tag, history, cursor, seen);
    var next := Follow(log, cursor).1;
    assert history'[z] == history[z];
    assert FirstZero(history', z) == z;
    FollowFrom(log', tag, history', next, z);
    assert history'[z..z] == [];
  }

  /** The deliveries of polls made when the history had the lengths `marks`, starting with a cursor. */
  ghost function Delivered(tag: Text, history: seq<Entry>, marks: seq<nat>, cursor: nat): seq<Entry>
    requires |tag| <= MAX_TAG_LENGTH && cursor < WRAP
    requires forall i | 0 <= i < |marks| :: marks[i] <= |history|
    decreases |marks|
  {
    if marks == [] then []
    else
      var (es, next) := Follow(After(tag, history[..marks[0]]), cursor);
      es + Delivered(tag, history, marks[1..], next)
  }

  ghost predicate Paced(seen: nat, marks: seq<nat>)
    decreases |marks|
  {
    marks == [] || (seen <= marks[0] < seen + MAX_LINES && Paced(marks[0], marks[1..]))
  }

  /** Over any run of polls with fewer than 2048 writes between them, each line written since the first is delivered
      exactly once and in order. */
  lemma {:induction false} PollsDeliverOnce(tag: Text, history: seq<Entry>, seen: nat, marks: seq<nat>, cursor: nat)
    requires |tag| <= MAX_TAG_LENGTH && Ordinary(tag, history) && cursor < WRAP
    requires forall i | 0 <= i < |marks| :: marks[i] <= |history|
    requires seen <= |history| && Caught(cursor, seen) && Paced(seen, marks)
    ensures var end := if marks == [] then seen else marks[|marks| - 1];
            seen <= end <= |history| && Delivered(tag, history, marks, cursor) == ShownAll(tag, history[seen..end])
    decreases |marks|
  {
    hide Follow, Holds, After, Shown;
    if marks == [] {
      assert history[seen..seen] == [];
    } else {
      var m := marks[0];
      var (es, next) := Follow(After(tag, history[..m]), cursor);
      AfterHolds(tag, history[..m]);
      NextPoll(After(tag, history[..m]), tag, history[..m], cursor, seen);
      PollsDeliverOnce(tag, history, m, marks[1..], next);
      var end := marks[|marks| - 1];
      assert marks[1..] != [] ==> marks[1..][|marks[1..]| - 1] == end;
      ShownAllConcat(tag, history[seen..m], history[m..end]);
      assert history[seen..m] + history[m..end] == history[seen..end];
      assert history[..m][seen..] == history[seen..m];
    }
  }

  // ---------------------------------------------------------------- printing

  /** The line printed for an entry; `format` stands for the time format of Go. */
  function Rendered(format: int -> Text, e: Entry): Text {
    format(e.timeNs) + [':' as int, ' ' as int] + e.text + ['\n' as int]
  }

  function Total(lines: seq<Text>): nat {
    if lines == [] then 0 else Total(lines[..|lines| - 1]) + |lines[|lines| - 1]|
  }

  /** The entries were printed in order up to the first line that the sink refused, and the bytes taken were counted. */
  ghost predicate Printed(format: int -> Text, sink: (nat, Text) -> bool, es: seq<Entry>, written: seq<Text>, n: nat, ok: bool) {
    && |written| <= |es|
    && (forall k | 0 <= k < |written| :: written[k] == Rendered(format, es[k]) && sink(k, written[k]))
    && n == Total(written)
    && (ok <==> |written| == |es|)
    && (!ok ==> !sink(|written|, Rendered(format, es[|written|])))
  }

  lemma PrintedNothing(format: int -> Text, sink: (nat, Text) -> bool)
    ensures Printed(format, sink, [], [], 0, true)
  {
  }

  lemma {:induction false} PrintedNext(format: int -> Text, sink: (nat, Text) -> bool, es: seq<Entry>, e: Entry, rest: seq<Entry>,
                                       written: seq<Text>, n: nat)
    requires Printed(format, sink, es, written, n, true)
    ensures var line := Rendered(format, e);
            if sink(|written|, line) then Printed(format, sink, es + [e], written + [line], n + |line|, true)
            else Printed(format, sink, es + [e] + rest, written, n, false)
  {
    hide Rendered;
    var line := Rendered(format, e);
    assert (written + [line])[..|written|] == written;
  }

  // ---------------------------------------------------------------- the logger

  /** A mapped log and the tag of one writer. `trim` stands for bytes.TrimSpace. */
  class Ringlogger {
    const tag: Text
    const readOnly: bool
    const trim: Text -> Text
    const lines: array<LogLine>
    var nextIndex: nat
    /** The texts written so far that were not blank, trimmed, with their stamps. */
    ghost var history: seq<Entry>

    ghost predicate Valid()
      reads this, lines
    {
      lines.Length == MAX_LINES && Holds(Memory(), tag, history)
    }

    ghost function Memory(): Log
      reads this, lines
    {
      Log(lines[..], nextIndex)
    }

    constructor (tag: Text, readOnly: bool, trim: Text -> Text)
      requires |tag| <= MAX_TAG_LENGTH
      ensures Valid() && history == [] && this.tag == tag && this.readOnly == readOnly && this.trim == trim && fresh(lines)
    {
      this.tag := tag;
      this.readOnly := readOnly;
      this.trim := trim;
      lines := new LogLine[MAX_LINES](_ => LogLine(0, Zeros(MAX_LOG_LINE_LENGTH)));
      nextIndex := 0;
      history := [];
    }

    /** Some(n) is the number of bytes taken, None a short write. */
    method WriteWithTimestamp(p: Text, ts: int) returns (n: Option<nat>)
      requires Valid()
      modifies this, lines
      ensures Valid()
      ensures n == if readOnly then None else Some(|p|)
      ensures history == if readOnly || trim(p) == [] then old(history) else old(history) + [Entry(ts, trim(p))]
      ensures readOnly || trim(p) == [] ==> Memory() == old(Memory())
    {
      hide Holds, Zeros, Padded, Shown, Stored;
      if readOnly { return None; }
      n := Some(|p|);
      var text := trim(p);
      if text == [] { return; }
      var index := nextIndex;
      HoldsShape(Memory(), tag, history);
      var line := FormatLine(tag, text);
      WrittenHolds(Memory(), tag, history, Entry(ts, text));
      ghost var was := Memory();
      StoredIs(tag, Entry(ts, text));
      nextIndex := (index + 1) % WRAP;
      lines[index % MAX_LINES] := LogLine(ts, line);
      history := history + [Entry(ts, text)];
      assert Memory() == Written(was, tag, Entry(ts, text));
    }

    /** Prints the listing, one line an entry, until the sink fails; n counts the bytes of the lines it took. */
    method WriteTo(format: int -> Text, sink: (nat, Text) -> bool) returns (written: seq<Text>, n: nat, ok: bool)
      requires Valid()
      ensures Printed(format, sink, ListFrom(Memory().lines, nextIndex, MAX_LINES), written, n, ok)
      ensures Ordinary(tag, history) ==>
                Printed(format, sink, ShownAll(tag, history[Oldest(|history|)..]), written, n, ok)
    {
      hide Holds, Stored, Ordinary, ShownAll, UpToNul, Printed, ListFrom;
      HoldsShape(Memory(), tag, history);
      if Ordinary(tag, history) { ListingIsTail(Memory(), tag, history); }
      var i := nextIndex;
      written, n, ok := [], 0, true;
      ListFromNothing(lines[..], i);
      PrintedNothing(format, sink);
      for l := 0 to MAX_LINES
        invariant ok && Printed(format, sink, ListFrom(lines[..], i, l), written, n, true)
      {
        SlotOfCounter(i + l);
        var line := lines[(i + l) % WRAP % MAX_LINES];
        ghost var before := ListFrom(lines[..], i, l);
        assert before + [] == before;
        ListFromEnd(lines[..], i, l);
        if line.timeNs == 0 { continue; }
        var text := UpToNul(line.line);
        if |text| < 1 || |text| == |line.line| { continue; }
        var printed := format(line.timeNs) + [':' as int, ' ' as int] + text + ['\n' as int];
        PrintedNext(format, sink, before, Entry(line.timeNs, text), ListFrom(lines[..], i + l + 1, MAX_LINES - l - 1), written, n);
        ok := sink(|written|, printed);
        if !ok {
          ListSplit(lines[..], i, l + 1, MAX_LINES - l - 1);
          return;
        }
        written := written + [printed];
        n := n + |printed|;
      }
    }

    method FollowFromCursor(cursor: nat) returns (followLines: seq<Entry>, nextCursor: nat)
      requires Valid() && cursor < WRAP
      ensures var polled := Follow(Memory(), cursor); followLines == polled.0 && nextCursor == polled.1
    {
      hide Holds, Stored, UpToNul, FollowLoop, Zeros;
      HoldsShape(Memory(), tag, history);
      followLines := [];
      nextCursor := cursor;
      var i: nat := cursor;
      if cursor == CURSOR_ALL { i := nextIndex; }
      ghost var log := Memory();
      ghost var all := Follow(log, cursor);
      for turn := 0 to MAX_LINES
        invariant 0 <= i < WRAP
        invariant var rest := FollowLoop(log, cursor, i, MAX_LINES - turn, nextCursor);
                  all.0 == followLines + rest.0 && all.1 == rest.1
      {
        FollowTurn(log, cursor, i, MAX_LINES - turn, nextCursor);
        var line := lines[i % MAX_LINES];
        if cursor != CURSOR_ALL && i % MAX_LINES == nextIndex % MAX_LINES { break; }
        if line.timeNs == 0 {
          if cursor == CURSOR_ALL {
            i := (i + 1) % WRAP;
            continue;
          } else {
            break;
          }
        }
        var text := UpToNul(line.line);
        if |text| > 0 && |text| < |line.line| {
          followLines := followLines + [Entry(line.timeNs, text)];
        }
        i := (i + 1) % WRAP;
        nextCursor := i % MAX_LINES;
      }
      FollowNoTurns(log, cursor, i, nextCursor);
    }
  }

  /** One turn of the loop. */
  lemma {:induction false} FollowTurn(log: Log, cursor: nat, i: nat, n: nat, next: nat)
    requires log.WellFormed() && n > 0
    ensures var l := log.lines[i % MAX_LINES];
            FollowLoop(log, cursor, i, n, next) ==
            ( if cursor != CURSOR_ALL && i % MAX_LINES == log.nextIndex % MAX_LINES then ([], next)
            else if l.timeNs == 0 && cursor != CURSOR_ALL then ([], next)
            else if l.timeNs == 0 then FollowLoop(log, cursor, (i + 1) % WRAP, n - 1, next)
            else (var rest := FollowLoop(log, cursor, (i + 1) % WRAP, n - 1, (i + 1) % WRAP % MAX_LINES);
                  (Followed(l) + rest.0, rest.1)))
  {
  }

  lemma FollowNoTurns(log: Log, cursor: nat, i: nat, next: nat)
    requires log.WellFormed()
    ensures FollowLoop(log, cursor, i, 0, next) == ([], next)
  {
  }

  lemma HoldsShape(log: Log, tag: Text, history: seq<Entry>)
    requires Holds(log, tag, history)
    ensures |tag| <= MAX_TAG_LENGTH && log.WellFormed()
  {
  }

  lemma StoredIs(tag: Text, e: Entry)
    requires |tag| <= MAX_TAG_LENGTH
    ensures Stored(tag, e) == LogLine(e.timeNs, Padded(Shown(tag, e.text)))
  {
  }

  lemma ListFromNothing(lines: seq<LogLine>, i: nat)
    requires |lines| == MAX_LINES
    ensures ListFrom(lines, i, 0) == []
  {
  }

  lemma {:induction false} ListFromEnd(lines: seq<LogLine>, i: nat, n: nat)
    requires |lines| == MAX_LINES
    ensures ListFrom(lines, i, n + 1) == ListFrom(lines, i, n) + Listed(lines[(i + n) % MAX_LINES])
  {
    hide Listed, ListFrom;
    ListSplit(lines, i, n, 1);
    ListFirst(lines, i + n, 1);
    ListFromNothing(lines, i + n + 1);
  }

  /** The bytes of a line, put together in place. */
  method FormatLine(tag: Text, text: Text) returns (bytes: Text)
    requires |tag| <= MAX_TAG_LENGTH
    ensures bytes == Padded(Shown(tag, text))
  {
    hide Zeros, Padded, Shown;
    var line := new Byte[MAX_LOG_LINE_LENGTH](_ => 0);
    var p := text;
    var textLen := 3 + |p| + |tag|;
    if textLen > MAX_LOG_LINE_LENGTH - 1 {
      p := p[..MAX_LOG_LINE_LENGTH - 1 - 3 - |tag|];
      textLen := MAX_LOG_LINE_LENGTH - 1;
    }
    line[textLen] := 0;
    line[0] := 0;
    CopyAt(line, 1, tag);
    line[1 + |tag|] := ']' as int;
    line[2 + |tag|] := ' ' as int;
    CopyAt(line, 3 + |tag|, p);
    line[0] := '[' as int;
    bytes := line[..];
    LinePieces(tag, p, bytes);
    ShownIs(tag, text);
  }

  lemma ShownIs(tag: Text, text: Text)
    requires |tag| <= MAX_TAG_LENGTH
    ensures Shown(tag, text) == ['[' as int] + tag + [']' as int, ' ' as int] + Fitting(tag, text)
  {
  }

  lemma {:induction false} LinePieces(tag: Text, p: Text, bytes: Text)
    requires |tag| <= MAX_TAG_LENGTH && 3 + |tag| + |p| < |bytes| == MAX_LOG_LINE_LENGTH
    requires bytes[0] == '[' as int && forall j | 0 <= j < |tag| :: bytes[1 + j] == tag[j]
    requires bytes[1 + |tag|] == ']' as int && bytes[2 + |tag|] == ' ' as int
    requires forall j | 0 <= j < |p| :: bytes[3 + |tag| + j] == p[j]
    requires forall j | 3 + |tag| + |p| <= j < |bytes| :: bytes[j] == 0
    ensures bytes == Padded(['[' as int] + tag + [']' as int, ' ' as int] + p)
  {
    hide Zeros;
    var s := ['[' as int] + tag + [']' as int, ' ' as int] + p;
    var zeros := bytes[|s|..];
    assert zeros == Zeros(MAX_LOG_LINE_LENGTH - |s|);
    assert |s| == 3 + |tag| + |p|;
    assert bytes[..1 + |tag|] == ['[' as int] + tag;
    assert bytes[1 + |tag|..3 + |tag|] == [']' as int, ' ' as int];
    assert bytes[..3 + |tag|] == bytes[..1 + |tag|] + bytes[1 + |tag|..3 + |tag|];
    assert bytes[3 + |tag|..|s|] == p;
    assert bytes[..|s|] == bytes[..3 + |tag|] + p;
  }

  /** copy(line[at:], p), for a p that fits. */
  method CopyAt(line: array<Byte>, at: nat, p: Text)
    requires at + |p| <= line.Length
    modifies line
    ensures forall j | 0 <= j < |p| :: line[at + j] == p[j]
    ensures forall j | 0 <= j < line.Length && !(at <= j < at + |p|) :: line[j] == old(line[j])
  {
    for i := 0 to |p|
      invariant forall j | 0 <= j < i :: line[at + j] == p[j]
      invariant forall j | 0 <= j < line.Length && !(at <= j < at + i) :: line[j] == old(line[j])
    {
      line[at + i] := p[i];
    }
  }
}
