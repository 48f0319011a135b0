/** Whole runs of a buffered stream: any calls in any order do what they would do on the plain file. */
module StdioRun {
  import opened Stdio
  import opened StdioStream

  datatype Call =
    | GetByte | Unget(c: Byte) | ReadBlock(n: nat) | ReadLine(delim: Byte)
    | PutByte(c: Byte) | WriteBlock(s: seq<Byte>)
    | Seek(off: int, whence: Whence) | Tell | Flush

  datatype Answer = Number(n: int) | Bytes(s: seq<Byte>)

  /** A plain stream, and whether it was last read from. */
  datatype State = State(a: Plain, reading: bool)

  /** What a call may answer and leave behind. Only writing or flushing straight after reading, with no
      seek between them, leaves the position open: what was read ahead may be passed over. */
  ghost predicate Step(app: bool, seekable: bool, s: State, call: Call, r: Answer, t: State) {
    match call
    case GetByte => r.Number? && Got(s.a, r.n, t.a) && t.reading
    case Unget(c) =>
        r.Number? && t == State(if r.n < 0 then s.a else Pushed(s.a, c), true) && (|s.a.back| < UNGET ==> r.n == c)
    case ReadBlock(n) => r.Bytes? && GotMany(s.a, n, r.s, t.a) && t.reading
    case ReadLine(delim) => r.Bytes? && GotLine(s.a, delim, -1, r.s, t.a) && t.reading
    case PutByte(c) => r == Number(c) && PutsAfter(app, s, [c], t)
    case WriteBlock(b) => r == Number(|b|) && PutsAfter(app, s, b, t)
    case Seek(off, whence) =>
      var q := Target(off, whence, s.a.at, |s.a.content|);
      if seekable && q >= 0 then r == Number(0) && t == State(Moved(s.a, q), false) else r == Number(-1) && t == s
    case Tell => r == Number(if seekable then s.a.at else -1) && t == s
    case Flush => r == Number(0) && !t.reading && FlushesTo(seekable, s, t.a)
  }

  ghost predicate PutsAfter(app: bool, s: State, b: seq<Byte>, t: State) {
    !t.reading && if !s.reading then t.a == Put(s.a, app, b)
        else exists p: int :: s.a.at <= p && t.a == Put(Moved(s.a, p), app, b)
  }

  ghost predicate FlushesTo(seekable: bool, s: State, a: Plain) {
    if !s.reading then a == s.a
    else exists p: int :: s.a.at <= p && a == Moved(s.a, p) && (seekable && s.a.at >= 0 ==> p == s.a.at)
  }

  /** A run of calls with their answers, through the states ss. */
  ghost predicate Run(app: bool, seekable: bool, calls: seq<Call>, rs: seq<Answer>, ss: seq<State>) {
    |rs| == |calls| && |ss| == |calls| + 1
        && forall i | 0 <= i < |calls| :: Step(app, seekable, ss[i], calls[i], rs[i], ss[i + 1])
  }

  /** The state of a stream. */
  ghost predicate In(f: Stream, s: State)
    reads f, f.mem, f.file
  {
    f.Valid() && f.Abs() == s.a && (s.reading || f.V().unread == [])
  }

  /** What is written goes to the end of the file. */
  ghost predicate AtEnd(f: Stream)
    reads f, f.mem, f.file
  {
    f.Valid() && Appending(f.V())
  }

  predicate IsRead(call: Call) { call.GetByte? || call.Unget? || call.ReadBlock? || call.ReadLine? }

  /** A call that the stream is not open for. */
  predicate Refuses(f: Stream, call: Call) {
    (f.nord && IsRead(call)) || (f.nowr && (call.PutByte? || call.WriteBlock?))
  }

  predicate Refused(f: Stream, calls: seq<Call>) { exists i :: 0 <= i < |calls| && Refuses(f, calls[i]) }

  method Reading(f: Stream, call: Call, ghost s: State) returns (r: Answer, ghost t: State)
    requires In(f, s) && IsRead(call)
    modifies f, f.mem, f.file
    ensures f.Valid() && f.Blames(f.nord)
    ensures f.Fine(f.nord) ==> In(f, t) && Step(f.app, f.file.seekable, s, call, r, t)
  {
    hide Inv, Means, Avail, Took, Put;
    SameBack(f.V());
    match call
    case GetByte =>
      var c := f.Getc();
      r, t := Number(c), State(f.Abs(), true);
    case Unget(c) =>
      var n := f.Ungetc(c);
      r, t := Number(n), State(f.Abs(), true);
    case ReadBlock(n) =>
      var d := f.ReadBytes(n);
      r, t := Bytes(d), State(f.Abs(), true);
    case ReadLine(delim) =>
      var line, cap, ok := f.Getdelim(delim, 0);
      r, t := Bytes(line), State(f.Abs(), true);
  }

  method Writing(f: Stream, call: Call, ghost s: State) returns (r: Answer, ghost t: State)
    requires In(f, s) && (call.PutByte? || call.WriteBlock?)
    modifies f, f.mem, f.file
    ensures f.Valid() && f.Blames(f.nowr)
    ensures f.Fine(f.nowr) ==> In(f, t) && Step(f.app, f.file.seekable, s, call, r, t)
    ensures f.Fine(f.nowr) && old(AtEnd(f)) ==> AtEnd(f)
  {
    hide Inv, Means, Put;
    ghost var v := f.V();
    Start(v);
    ghost var p := s.a.at + |v.unread|;
    match call {
      case PutByte(c) =>
        var n := f.Putc(c);
        r, t := Number(n), State(f.Abs(), false);
        if f.Fine(f.nowr) { Passed(f.app, s, v, p, [c], t); }
      case WriteBlock(b) =>
        var n := f.Fwritex(b);
        r, t := Number(n), State(f.Abs(), false);
        if f.Fine(f.nowr) { Passed(f.app, s, v, p, b, t); }
    }
  }

  lemma Passed(app: bool, s: State, v: View, p: int, b: seq<Byte>, t: State)
    requires s.a == Means(v) && p == s.a.at + |v.unread| && (s.reading || v.unread == []) && !t.reading
    requires Settled(v) == (if v.unread == [] then Means(v) else Moved(Means(v), p)) && t.a == Put(Settled(v), app, b)
    requires v.unread == [] ==> Means(v) == Moved(Means(v), Means(v).at)
    ensures PutsAfter(app, s, b, t)
  {
    hide Means, Put;
  }

  method Moving(f: Stream, call: Call, ghost s: State) returns (r: Answer, ghost t: State)
    requires In(f, s) && (call.Seek? || call.Tell? || call.Flush?)
    modifies f, f.mem, f.file
    ensures f.Valid() && f.Blames(false)
    ensures f.Fine(false) ==> In(f, t) && Step(f.app, f.file.seekable, s, call, r, t)
    ensures f.Fine(false) && call.Flush? && !s.reading && old(AtEnd(f)) ==> AtEnd(f)
  {
    hide Inv, Means, Put;
    ghost var v := f.V();
    Start(v);
    match call
    case Seek(off, whence) =>
      var n := f.Fseek(off, whence);
      r, t := Number(n), State(f.Abs(), n != 0 && s.reading);
    case Tell =>
      var n := f.Ftell();
      r, t := Number(n), s;
    case Flush =>
      var n := f.Fflush();
      r, t := Number(n), State(f.Abs(), false);
  }

  /** One call, of whatever kind. */
  method PerformOne(f: Stream, call: Call, ghost s: State) returns (r: Answer, ghost t: State)
    requires In(f, s)
    modifies f, f.mem, f.file
    ensures f.Valid() && f.Blames(Refuses(f, call))
    ensures f.Fine(Refuses(f, call)) ==> In(f, t) && Step(f.app, f.file.seekable, s, call, r, t)
    ensures f.Fine(Refuses(f, call)) && IsWrite(call) && !s.reading && old(AtEnd(f)) ==> AtEnd(f)
  {
    hide Step, In, Stream.Valid, AtEnd;
    if call.GetByte? || call.Unget? || call.ReadBlock? || call.ReadLine? {
      r, t := Reading(f, call, s);
    } else if call.PutByte? || call.WriteBlock? {
      r, t := Writing(f, call, s);
    } else {
      r, t := Moving(f, call, s);
    }
  }

  /** Any calls, for any buffer, with any short reads and writes: if the file reports no error and the stream is
      open for what is asked of it, none is reported and the answers are those of the plain stream. Writing at the
      end stays at the end. */
  method Perform(f: Stream, calls: seq<Call>, ghost s: State) returns (rs: seq<Answer>)
    requires In(f, s)
    modifies f, f.mem, f.file
    ensures f.Valid() && f.Blames(Refused(f, calls)) && |rs| == |calls|
    ensures f.Fine(Refused(f, calls)) ==>
        exists ss: seq<State> :: Run(f.app, f.file.seekable, calls, rs, ss) && ss[0] == s && In(f, ss[|calls|])
    ensures f.Fine(Refused(f, calls)) && !s.reading && OnlyWrites(calls) && old(AtEnd(f)) ==> AtEnd(f)
  {
    hide Step, In, Stream.Valid, AtEnd, Refuses;
    rs := [];
    ghost var ss := [s];
    ValidIn(f, s);
    for i := 0 to |calls|
      invariant f.Valid() && |rs| == i && f.Blames(Refused(f, calls[..i])) && |ss| == i + 1
      invariant f.Fine(Refused(f, calls[..i])) ==>
          && ss[0] == s && In(f, ss[i]) && Run(f.app, f.file.seekable, calls[..i], rs, ss)
          && (!s.reading && OnlyWrites(calls) && old(AtEnd(f)) ==> AtEnd(f) && !ss[i].reading)
    {
      var call := calls[i];
      RefusedMore(f, calls, i);
      ghost var fine := f.Fine(Refused(f, calls[..i]));
      ghost var now := if fine then ss[i] else State(f.Abs(), true);
      if !fine { InAnyway(f); }
      var r;
      ghost var t;
      r, t := PerformOne(f, call, now);
      if f.Fine(Refused(f, calls[..i + 1])) {
        if !now.reading && IsWrite(call) { StaysWriting(f.app, f.file.seekable, now, call, r, t); }
        RunOn(f.app, f.file.seekable, calls, i, rs, ss, r, t);
      }
      rs, ss := rs + [r], ss + [t];
    }
    assert calls[..|calls|] == calls;
    assert f.Fine(Refused(f, calls)) ==>
        Run(f.app, f.file.seekable, calls, rs, ss) && ss[0] == s && In(f, ss[|calls|]);
  }

  lemma RefusedMore(f: Stream, calls: seq<Call>, i: nat)
    requires i < |calls|
    ensures Refused(f, calls[..i + 1]) <==> Refused(f, calls[..i]) || Refuses(f, calls[i])
  {
    hide Refuses;
    assert calls[..i + 1] == calls[..i] + [calls[i]];
    if Refuses(f, calls[i]) { assert Refuses(f, calls[..i + 1][i]); }
    if Refused(f, calls[..i]) {
      var k :| 0 <= k < i && Refuses(f, calls[..i][k]);
      assert Refuses(f, calls[..i + 1][k]);
    }
  }

  lemma InAnyway(f: Stream)
    requires f.Valid()
    ensures In(f, State(f.Abs(), true))
  {
  }

  // ---- only writing ----

  predicate IsWrite(call: Call) { call.PutByte? || call.WriteBlock? || call.Flush? }

  predicate OnlyWrites(calls: seq<Call>) { forall i | 0 <= i < |calls| :: IsWrite(calls[i]) }

  /** All bytes given to be written. */
  function Given(calls: seq<Call>): seq<Byte> {
    if calls == [] then []
    else
      var call := calls[|calls| - 1];
      Given(calls[..|calls| - 1]) + if call.PutByte? then [call.c] else if call.WriteBlock? then call.s else []
  }

  lemma StaysWriting(app: bool, seekable: bool, s: State, call: Call, r: Answer, t: State)
    requires Step(app, seekable, s, call, r, t) && !s.reading && IsWrite(call)
    ensures !t.reading && (app || s.a.at == |s.a.content| ==> app || t.a.at == |t.a.content|)
    ensures app || s.a.at == |s.a.content| ==> t.a.content == s.a.content + Given([call])
  {
    hide Overwrite;
    assert [call][..0] == [] && Given([]) == [];
    var b := Given([call]);
    if call.PutByte? { assert b == [call.c]; } else if call.WriteBlock? { assert b == call.s; } else { assert b == []; }
    assert s.a.content + [] == s.a.content;
    OverwriteEnd(s.a.content, b);
  }

  lemma {:induction false} WritesAdd(app: bool, seekable: bool, calls: seq<Call>, rs: seq<Answer>, ss: seq<State>,
      i: nat)
    requires Run(app, seekable, calls, rs, ss) && OnlyWrites(calls) && !ss[0].reading && i <= |calls|
    requires app || ss[0].a.at == |ss[0].a.content|
    ensures !ss[i].reading && (app || ss[i].a.at == |ss[i].a.content|)
    ensures ss[i].a.content == ss[0].a.content + Given(calls[..i])
  {
    hide Step;
    if i > 0 {
      WritesAdd(app, seekable, calls, rs, ss, i - 1);
      StaysWriting(app, seekable, ss[i - 1], calls[i - 1], rs[i - 1], ss[i]);
      assert calls[..i][..i - 1] == calls[..i - 1];
      assert [calls[i - 1]][..0] == [] && Given([]) == [];
      assert Given(calls[..i]) == Given(calls[..i - 1]) + Given([calls[i - 1]]);
    }
  }

  /** Bytes delivered and bytes pending are the bytes there were and all bytes given since: with any buffer,
      in line mode or not, however the calls cut the bytes up. No more is pending than the buffer holds, and in line
      mode no finished line. */
  method WriteRun(f: Stream, calls: seq<Call>)
    requires f.Valid() && f.V().unread == [] && AtEnd(f) && OnlyWrites(calls)
    modifies f, f.mem, f.file
    ensures f.Valid() && f.Blames(f.nowr)
    ensures f.Fine(f.nowr) ==> f.file.data + f.Pending() == old(f.file.data + f.Pending()) + Given(calls)
    ensures |f.Pending()| <= f.size && (f.lbf ==> NEWLINE !in f.Pending())
  {
    hide Step, Overwrite;
    ghost var s := State(f.Abs(), false);
    DeliveredAndPending(f.V());
    var rs := Perform(f, calls, s);
    OnlyRefused(f, calls);
    if f.Fine(f.nowr) {
      ghost var ss: seq<State> :|
        Run(f.app, f.file.seekable, calls, rs, ss) && ss[0] == s && In(f, ss[|calls|]);
      WritesAdd(f.app, f.file.seekable, calls, rs, ss, |calls|);
      assert calls[..|calls|] == calls;
      DeliveredAndPending(f.V());
    }
  }

  lemma OnlyRefused(f: Stream, calls: seq<Call>)
    ensures OnlyWrites(calls) && Refused(f, calls) ==> f.nowr
    ensures OnlyReads(calls) && Refused(f, calls) ==> f.nord
  {
  }

  // ---- only reading ----

  predicate OnlyReads(calls: seq<Call>) { forall i | 0 <= i < |calls| :: IsRead(calls[i]) }

  /** The bytes read so far, less those pushed back. */
  function Kept(calls: seq<Call>, rs: seq<Answer>): seq<Byte>
    requires |calls| == |rs|
  {
    if calls == [] then []
    else
      var n := |calls| - 1;
      KeptAfter(Kept(calls[..n], rs[..n]), calls[n], rs[n])
  }

  function KeptAfter(before: seq<Byte>, call: Call, r: Answer): seq<Byte> {
    match r
    case Bytes(s) => before + s
    case Number(c) =>
      if call.Unget? then (if c < 0 || before == [] then before else before[..|before| - 1])
      else if 0 <= c < 256 then before + [c]
      else before
  }

  /** Every byte pushed back is the last one read and not pushed back. */
  ghost predicate Returns(calls: seq<Call>, rs: seq<Answer>)
    requires |calls| == |rs|
  {
    forall i | 0 <= i < |calls| :: calls[i].Unget? ==> GivesBack(Kept(calls[..i], rs[..i]), calls[i].c)
  }

  predicate GivesBack(before: seq<Byte>, c: Byte) { before != [] && before[|before| - 1] == c }

  /** Nothing is lost or read twice. */
  ghost predicate Together(s: State, kept: seq<Byte>, t: State) {
    && kept + Avail(t.a) == Avail(s.a) && t.a.at == s.a.at + |kept| && t.a.content == s.a.content
    && t.a.at + |t.a.back| >= 0
  }

  lemma ReadStep(app: bool, seekable: bool, s0: State, kept: seq<Byte>, s: State, call: Call, r: Answer, t: State)
    requires Step(app, seekable, s, call, r, t) && Together(s0, kept, s)
    requires call.GetByte? || call.ReadBlock? || call.ReadLine?
    ensures Together(s0, KeptAfter(kept, call, r), t)
  {
    hide Avail, Took;
    var d: seq<Byte> := if r.Bytes? then r.s else if r.n < 0 then [] else [r.n];
    assert d <= Avail(s.a) && t.a == Took(s.a, |d|) by { TookNothing(s.a); }
    assert Avail(s.a) == d + Avail(s.a)[|d|..];
    TookAvail(s.a, |d|);
    TookRest(s.a, |d|);
    assert kept + (d + Avail(t.a)) == kept + d + Avail(t.a);
    assert kept + [] == kept;
  }

  lemma TookNothing(a: Plain)
    ensures Took(a, 0) == a
  {
  }

  lemma TookRest(a: Plain, n: nat)
    requires a.at + |a.back| >= 0
    ensures var b := Took(a, n); b.at == a.at + n && b.content == a.content && b.at + |b.back| >= 0
  {
  }

  lemma UngetStep(app: bool, seekable: bool, s0: State, kept: seq<Byte>, s: State, call: Call, r: Answer, t: State)
    requires Step(app, seekable, s, call, r, t) && Together(s0, kept, s) && call.Unget? && GivesBack(kept, call.c)
    ensures Together(s0, KeptAfter(kept, call, r), t)
  {
    var n := |kept| - 1;
    assert kept == kept[..n] + [call.c];
    if r.n >= 0 {
      assert Avail(t.a) == [call.c] + Avail(s.a);
      assert kept[..n] + ([call.c] + Avail(s.a)) == kept + Avail(s.a);
    }
  }

  lemma {:induction false} ReadsAdd(app: bool, seekable: bool, calls: seq<Call>, rs: seq<Answer>, ss: seq<State>,
      i: nat)
    requires Run(app, seekable, calls, rs, ss) && OnlyReads(calls) && Returns(calls, rs) && i <= |calls|
    requires ss[0].a.at + |ss[0].a.back| >= 0
    ensures Together(ss[0], Kept(calls[..i], rs[..i]), ss[i])
  {
    hide Step, Together;
    if i == 0 {
      NothingRead(ss[0]);
    } else {
      ReadsAdd(app, seekable, calls, rs, ss, i - 1);
      assert calls[..i][..i - 1] == calls[..i - 1] && rs[..i][..i - 1] == rs[..i - 1];
      var kept := Kept(calls[..i - 1], rs[..i - 1]);
      if calls[i - 1].Unget? {
        UngetStep(app, seekable, ss[0], kept, ss[i - 1], calls[i - 1], rs[i - 1], ss[i]);
      } else {
        ReadStep(app, seekable, ss[0], kept, ss[i - 1], calls[i - 1], rs[i - 1], ss[i]);
      }
    }
  }

  lemma NothingRead(s: State)
    requires s.a.at + |s.a.back| >= 0
    ensures Together(s, [], s)
  {
    assert [] + Avail(s.a) == Avail(s.a);
  }

  /** Bytes read and bytes still to be read are the bytes there were to read, as long as what is pushed back is
      what was read last: with any buffer and any mix of bytes, blocks and lines. */
  method ReadRun(f: Stream, calls: seq<Call>) returns (rs: seq<Answer>)
    requires f.Valid() && OnlyReads(calls)
    modifies f, f.mem, f.file
    ensures f.Valid() && f.Blames(f.nord) && |rs| == |calls|
    ensures f.Fine(f.nord) && Returns(calls, rs) ==>
        && Kept(calls, rs) + Avail(f.Abs()) == Avail(old(f.Abs()))
        && f.Abs().at == old(f.Abs()).at + |Kept(calls, rs)|
  {
    hide Step, Avail;
    ghost var s := State(f.Abs(), true);
    NotBefore(f.V());
    rs := Perform(f, calls, s);
    OnlyRefused(f, calls);
    if f.Fine(f.nord) {
      ghost var ss: seq<State> :|
        Run(f.app, f.file.seekable, calls, rs, ss) && ss[0] == s && In(f, ss[|calls|]);
      if Returns(calls, rs) {
        ReadsAdd(f.app, f.file.seekable, calls, rs, ss, |calls|);
        assert calls[..|calls|] == calls && rs[..|calls|] == rs;
      }
    }
  }

  lemma NotBefore(v: View)
    requires Inv(v)
    ensures Means(v).at + |Means(v).back| >= 0
  {
  }

  // ---- seeking ----

  function From(s: seq<Byte>, p: int, n: nat): seq<Byte>
    requires p >= 0
  {
    if p >= |s| then [] else if p + n >= |s| then s[p..] else s[p..p + n]
  }

  /** A byte has its place in the file, counted from the start, from where the stream is, or from the end. */
  method SeekAndRead(f: Stream, p: nat, n: nat) returns (d: seq<Byte>, again: seq<Byte>, last: seq<Byte>)
    requires f.Valid() && f.file.seekable
    modifies f, f.mem, f.file
    ensures f.Valid() && f.Blames(f.nord)
    ensures f.Fine(f.nord) ==>
        var s := old(f.Abs()).content;
        d == From(s, p, n) && again == d && last == if n <= |s| then s[|s| - n..] else []
  {
    hide Inv, Means, Took, Stream.Valid, Avail;
    ghost var a := f.Abs();
    var r := f.Fseek(p, Set);
    d := ReadHere(f, n, Moved(a, p), f.Fine(f.nord));
    var k := |d|;
    r := f.Fseek(0 - k, Cur);
    if f.Fine(f.nord) { TookAt(Moved(a, p), k); }
    again := ReadHere(f, n, Moved(a, p), f.Fine(f.nord));
    if f.Fine(f.nord) { TookAt(Moved(a, p), |again|); }
    r := f.Fseek(0 - n, End);
    if r < 0 {
      last := [];
    } else {
      last := ReadHere(f, n, Moved(a, |a.content| - n), f.Fine(f.nord));
    }
  }

  method ReadHere(f: Stream, n: nat, ghost a: Plain, ghost fine: bool) returns (d: seq<Byte>)
    requires f.Valid() && (fine ==> f.Abs() == a && a.back == [] && a.at >= 0)
    modifies f, f.mem, f.file
    ensures f.Valid() && f.Blames(f.nord)
    ensures fine && f.Fine(f.nord) ==> d == From(a.content, a.at, n) && f.Abs() == Took(a, |d|)
  {
    hide Inv, Means, Took, Stream.Valid;
    d := f.ReadBytes(n);
  }

  lemma TookAt(a: Plain, n: nat)
    requires a.back == []
    ensures Took(a, n) == Moved(a, a.at + n)
  {
  }

  // ---- before the start ----

  /** A byte pushed back at the start of a file is before it: `ftell` gives -1, and `fflush` leaves the stream
      at the start, without that byte. */
  method PushAtStart(data: seq<Byte>, size: nat, c: Byte) returns (before: int, after: int)
    ensures before == -1 && after == 0
  {
    hide Inv, Means;
    var disk := new Disk(data, false, true);
    var f := new Stream(disk, size, false, true, false, false, false);
    NoBack(f.V());
    var r := f.Ungetc(c);
    before := f.Ftell();
    FileAt(f.V());
    r := f.Fflush();
    after := f.Ftell();
  }

  lemma FileAt(v: View)
    requires Inv(v) && v.unread != []
    ensures v.pos == Means(v).at + |v.unread|
  {
  }

  lemma ValidIn(f: Stream, s: State)
    requires In(f, s)
    ensures f.Valid()
  {
  }

  lemma RunOn(app: bool, seekable: bool, calls: seq<Call>, i: nat, rs: seq<Answer>, ss: seq<State>, r: Answer, t: State)
    requires i < |calls| && Run(app, seekable, calls[..i], rs, ss) && Step(app, seekable, ss[i], calls[i], r, t)
    ensures Run(app, seekable, calls[..i + 1], rs + [r], ss + [t])
  {
    hide Step;
    forall j | 0 <= j < i + 1 ensures Step(app, seekable, (ss + [t])[j], calls[..i + 1][j], (rs + [r])[j],
        (ss + [t])[j + 1]) {
      if j < i { assert calls[..i][j] == calls[..i + 1][j]; }
    }
  }

  lemma SameBack(v: View)
    requires Inv(v)
    ensures Means(v).back == v.back
  {
    if v.pending != [] { assert v.unread == []; }
  }

  lemma Start(v: View)
    requires Inv(v)
    ensures Settled(v) == if v.unread == [] then Means(v) else Moved(Means(v), Means(v).at + |v.unread|)
    ensures v.unread == [] ==> v.back == [] && Means(v) == Moved(Means(v), Means(v).at)
    ensures v.unread != [] ==> Means(v).at + |v.unread| == v.pos
  {
  }
}
