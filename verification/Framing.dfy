/**
 * The framer of the telnet-like connection (processing/dpdk_pipeline/conn.c:205-276): it cuts the
 * bytes of all clients, as they are read, into lines for the command handler.
 */
module Framing {

  datatype Event = Deliver(msg: string) | TooLong

  /** The line under construction and what has been handed on. */
  datatype Framed = Framed(pending: string, events: seq<Event>)

  /** One byte of the loop. */
  function Step(max: nat, st: Framed, c: char): Framed {
    if c == '\n' then Framed([], st.events + [Deliver(st.pending)])
    else if |st.pending| < max then Framed(st.pending + [c], st.events)
    else Framed([], st.events + [TooLong])
  }

  /** The loop over a buffer. */
  function Frame(max: nat, st: Framed, s: string): Framed
    decreases |s|
  {
    if s == [] then st else Frame(max, Step(max, st, s[0]), s[1..])
  }

  /** The fields of `struct conn` that the framer uses; `msgIn` has room for the terminator. */
  class Conn {
    const max: nat
    const msgIn: array<char>
    var msgInLen: nat

    ghost predicate Valid()
      reads this
    {
      msgIn.Length == max + 1 && msgInLen <= max
    }

    ghost function Pending(): string
      reads this, msgIn
      requires Valid()
    {
      msgIn[..msgInLen]
    }

    /** `conn_init`; the caller's limit is at least one. */
    constructor (msgInLenMax: nat)
      requires msgInLenMax > 0
      ensures Valid() && fresh(msgIn) && max == msgInLenMax && Pending() == []
    {
      max := msgInLenMax;
      msgIn := new char[msgInLenMax + 1](_ => '\0');
      msgInLen := 0;
    }

    /** The loop of `data_event_handle` over the bytes of one read, all writes succeeding. */
    method DataEventHandle(buf: string) returns (events: seq<Event>)
      requires Valid()
      modifies this`msgInLen, msgIn
      ensures Valid()
      ensures Framed(Pending(), events) == Frame(max, Framed(old(Pending()), []), buf)
    {
      events := [];
      var i := 0;
      while i < |buf|
        invariant i <= |buf| && Valid()
        invariant Frame(max, Framed(old(Pending()), []), buf) == Frame(max, Framed(Pending(), events), buf[i..])
      {
        assert buf[i..][0] == buf[i] && buf[i..][1..] == buf[i + 1..];
        ghost var before := Framed(Pending(), events);
        if buf[i] == '\n' {
          msgIn[msgInLen] := '\0';
          events := events + [Deliver(msgIn[..msgInLen])];
          msgInLen := 0;
        } else if msgInLen < max {
          msgIn[msgInLen] := buf[i];
          msgInLen := msgInLen + 1;
        } else {
          events := events + [TooLong];
          msgInLen := 0;
        }
        assert Framed(Pending(), events) == Step(max, before, buf[i]);
        i := i + 1;
      }
    }
  }

  // ---- Splitting the stream into reads does not matter ----

  lemma {:induction false} FrameConcat(max: nat, st: Framed, s: string, t: string)
    ensures Frame(max, st, s + t) == Frame(max, Frame(max, st, s), t)
    decreases |s|
  {
    if s == [] {
      assert s + t == t;
    } else {
      assert (s + t)[0] == s[0] && (s + t)[1..] == s[1..] + t;
      FrameConcat(max, Step(max, st, s[0]), s[1..], t);
    }
  }

  /** Events so far only stand in front. */
  lemma {:induction false} EventsAccumulate(max: nat, pending: string, evs: seq<Event>, s: string)
    ensures var r := Frame(max, Framed(pending, []), s);
            Frame(max, Framed(pending, evs), s) == Framed(r.pending, evs + r.events)
    decreases |s|
  {
    if s == [] {
      assert evs + [] == evs;
    } else {
      var st := Step(max, Framed(pending, []), s[0]);
      EventsAccumulate(max, st.pending, st.events, s[1..]);
      EventsAccumulate(max, st.pending, evs + st.events, s[1..]);
      var r := Frame(max, Framed(st.pending, []), s[1..]);
      assert evs + st.events + r.events == evs + (st.events + r.events);
      assert Step(max, Framed(pending, evs), s[0]) == Framed(st.pending, evs + st.events);
    }
  }

  /** One read: the client it came from and its bytes. */
  datatype Read = Read(client: nat, bytes: string)

  function Bytes(reads_: seq<Read>): string {
    if reads_ == [] then [] else reads_[0].bytes + Bytes(reads_[1..])
  }

  /** The reads handled one after the other; each starts with no events of its own. */
  function HandleReads(max: nat, pending: string, reads_: seq<Read>): Framed
    decreases |reads_|
  {
    if reads_ == [] then Framed(pending, [])
    else
      var r := Frame(max, Framed(pending, []), reads_[0].bytes);
      var rest := HandleReads(max, r.pending, reads_[1..]);
      Framed(rest.pending, r.events + rest.events)
  }

  /**
   * What is handed on depends on the concatenation of the reads of all clients only, not on where
   * one read ends and the next begins, nor on which client a byte came from.
   */
  lemma {:induction false} SplitDoesNotMatter(max: nat, pending: string, reads_: seq<Read>)
    ensures HandleReads(max, pending, reads_) == Frame(max, Framed(pending, []), Bytes(reads_))
    decreases |reads_|
  {
    if reads_ != [] {
      var r := Frame(max, Framed(pending, []), reads_[0].bytes);
      FrameConcat(max, Framed(pending, []), reads_[0].bytes, Bytes(reads_[1..]));
      EventsAccumulate(max, r.pending, r.events, Bytes(reads_[1..]));
      SplitDoesNotMatter(max, r.pending, reads_[1..]);
    }
  }

  // ---- What becomes of each line ----

  function Notices(n: nat): (r: seq<Event>)
    ensures |r| == n && forall i :: 0 <= i < n ==> r[i] == TooLong
  {
    if n == 0 then [] else Notices(n - 1) + [TooLong]
  }

  ghost predicate NoNewline(s: string) { forall i :: 0 <= i < |s| ==> s[i] != '\n' }

  /** The bytes of an unfinished line: a notice for each `max + 1` of them, the rest is kept. */
  function Unfinished(max: nat, line: string): Framed {
    var k := |line| / (max + 1);
    Framed(line[k * (max + 1)..], Notices(k))
  }

  lemma {:induction false} UnfinishedSnoc(max: nat, line: string, c: char)
    requires c != '\n'
    ensures Unfinished(max, line + [c]) == Step(max, Unfinished(max, line), c)
  {
    var (m, n) := (max + 1, |line|);
    var (k, r) := (n / m, n % m);
    assert n == k * m + r;
    if r + 1 < m {
      DivIs(n + 1, m, k, r + 1);
      assert (line + [c])[k * m..] == line[k * m..] + [c];
    } else {
      assert (k + 1) * m == k * m + m;
      DivIs(n + 1, m, k + 1, 0);
      assert (line + [c])[(k + 1) * m..] == [];
    }
  }

  lemma DivIs(n: nat, m: nat, q: nat, r: nat)
    requires m > 0 && n == q * m + r && r < m
    ensures n / m == q
  {
    QuotientBounds(n, m);
    SameQuotient(n, m, n / m, q);
  }

  lemma QuotientBounds(n: nat, m: nat)
    requires m > 0
    ensures n / m * m <= n < n / m * m + m
  {
    assert n == m * (n / m) + n % m;
  }

  /** Only one quotient leaves a remainder in range. */
  lemma SameQuotient(n: nat, m: nat, d: nat, q: nat)
    requires d * m <= n < d * m + m && q * m <= n < q * m + m
    ensures d == q
  {
    if d < q {
      MulStep(d, q, m);
    } else if q < d {
      MulStep(q, d, m);
    }
  }

  lemma MulStep(a: nat, b: nat, m: nat)
    requires a < b
    ensures a * m + m <= b * m
  {
    MulMono(a + 1, b, m);
  }

  lemma MulMono(a: nat, b: nat, m: nat)
    requires a <= b
    ensures a * m <= b * m
  {
  }

  lemma {:induction false} UnfinishedLine(max: nat, line: string)
    requires NoNewline(line)
    ensures Frame(max, Framed([], []), line) == Unfinished(max, line)
    decreases |line|
  {
    if line == [] {
      DivIs(0, max + 1, 0, 0);
    } else {
      var (s, c) := (line[..|line| - 1], line[|line| - 1]);
      UnfinishedLine(max, s);
      UnfinishedSnoc(max, s, c);
      FrameConcat(max, Framed([], []), s, [c]);
      assert s + [c] == line && [c][1..] == [];
    }
  }

  /** What a complete line makes of itself. */
  function LineEvents(max: nat, line: string): seq<Event> {
    var u := Unfinished(max, line);
    u.events + [Deliver(u.pending)]
  }

  /** Position of the first newline, or the length. */
  function LineEnd(s: string): (n: nat)
    ensures n <= |s| && (n < |s| ==> s[n] == '\n') && NoNewline(s[..n])
  {
    if s == [] || s[0] == '\n' then 0
    else
      var n := 1 + LineEnd(s[1..]);
      assert forall i :: 0 <= i < n ==> s[..n][i] == if i == 0 then s[0] else s[1..][..n - 1][i - 1];
      n
  }

  /** The stream line by line. */
  function ByLines(max: nat, s: string): Framed
    decreases |s|
  {
    var n := LineEnd(s);
    if n == |s| then Unfinished(max, s)
    else
      var rest := ByLines(max, s[n + 1..]);
      Framed(rest.pending, LineEvents(max, s[..n]) + rest.events)
  }

  /**
   * A stream from a fresh connection: each line of length L gives L / (max + 1) notices and then
   * delivers exactly its last L % (max + 1) bytes; the unfinished line has given its notices.
   */
  lemma {:induction false} StreamByLines(max: nat, s: string)
    ensures Frame(max, Framed([], []), s) == ByLines(max, s)
    decreases |s|
  {
    var n := LineEnd(s);
    if n == |s| {
      assert s[..n] == s;
      UnfinishedLine(max, s);
    } else {
      var (line, rest) := (s[..n], s[n + 1..]);
      assert s == (line + "\n") + rest;
      UnfinishedLine(max, line);
      FrameConcat(max, Framed([], []), line, "\n");
      FrameConcat(max, Framed([], []), line + "\n", rest);
      assert "\n"[1..] == [];
      assert Frame(max, Framed([], []), line + "\n") == Framed([], LineEvents(max, line));
      EventsAccumulate(max, [], LineEvents(max, line), rest);
      StreamByLines(max, rest);
    }
  }

  lemma {:induction false} LineEventsAre(max: nat, line: string)
    ensures var (k, r, evs) := (|line| / (max + 1), |line| % (max + 1), LineEvents(max, line));
            && |evs| == k + 1 && (forall i :: 0 <= i < k ==> evs[i] == TooLong)
            && evs[k] == Deliver(line[|line| - r..])
  {
    assert |line| == (|line| / (max + 1)) * (max + 1) + |line| % (max + 1);
  }

  /** The line under construction never outgrows the buffer. */
  lemma {:induction false} PendingFits(max: nat, st: Framed, s: string)
    requires |st.pending| <= max
    ensures |Frame(max, st, s).pending| <= max
    decreases |s|
  {
    if s != [] { PendingFits(max, Step(max, st, s[0]), s[1..]); }
  }
}
