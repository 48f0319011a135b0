/** Buffered streams over a file descriptor, src/stdio.c and src/stdio_io.c. The file takes any part of what
    it is given and gives any part of what it is asked for. */
module StdioStream {
  import opened Basics
  import opened Stdio

  /** What lies beneath a stream. */
  class Disk {
    var data: seq<Byte>
    var pos: nat
    const append: bool
    const seekable: bool
    /** How many calls have failed. */
    ghost var failures: nat

    constructor (data: seq<Byte>, append: bool, seekable: bool)
      ensures this.data == data && pos == 0 && this.append == append && this.seekable == seekable && failures == 0
    {
      failures := 0;
      this.data, pos, this.append, this.seekable := data, 0, append, seekable;
    }

    /** `writev`: an error, nothing, or some of v. */
    method Writev(v: seq<Byte>) returns (r: int)
      modifies this
      ensures r <= |v| && failures == old(failures) + One(r <= 0)
      ensures r <= 0 ==> data == old(data) && pos == old(pos)
      ensures r > 0 ==>
          var p := if append then |old(data)| else old(pos); data == Overwrite(old(data), p, v[..r]) && pos == p + r
    {
      r :| -1 <= r <= |v|;
      if r <= 0 { failures := failures + 1; }
      if r > 0 {
        var p := if append then |data| else pos;
        data, pos := Overwrite(data, p, v[..r]), p + r;
      }
    }

    /** `read`: an error, the end of the file, or some of the next n bytes. */
    method Read(n: nat) returns (b: seq<Byte>, r: int)
      requires n > 0
      modifies this`pos, this`failures
      ensures failures == old(failures) + One(r < 0)
      ensures r <= 0 ==> b == [] && pos == old(pos)
      ensures r == 0 ==> pos >= |data|
      ensures r > 0 ==> r <= n && old(pos) + r <= |data| && b == data[old(pos)..old(pos) + r] && pos == old(pos) + r
    {
      if * {
        failures := failures + 1;
        return [], -1;
      }
      if pos >= |data| { return [], 0; }
      r :| 1 <= r <= n && r <= |data| - pos;
      b, pos := data[pos..pos + r], pos + r;
    }

    /** `lseek`: fails on what cannot seek and for a place before the start. */
    method Lseek(off: int, whence: Whence) returns (p: int)
      modifies this`pos
      ensures var q := Target(off, whence, old(pos), |data|);
              if seekable && q >= 0 then p == pos == q else p == -1 && pos == old(pos)
    {
      var q := Target(off, whence, pos, |data|);
      if !seekable || q < 0 { return -1; }
      pos := q;
      p := q;
    }
  }

  datatype Whence = Set | Cur | End

  function Target(off: int, whence: Whence, pos: int, end: int): int {
    match whence case Set => off case Cur => pos + off case End => end + off
  }

  /** Bytes kept free in front of the buffer for `ungetc`. */
  const UNGET := 8

  /** The null pointer; other pointers are places in the buffer's memory. */
  const NULL := -1

  const SIZE_MAX := 0xffff_ffff_ffff_ffff

  function AheadOf(v: View): nat { (if v.pos < |v.data| then |v.data| - v.pos else 0) + |v.unread| }

  /** What is left of two pieces once r bytes are gone. */
  function Flat(vs: seq<seq<Byte>>): seq<Byte> { if vs == [] then [] else vs[0] + Flat(vs[1..]) }

  lemma StartsEmpty(data: seq<Byte>, pos: nat, lbf: bool, app: bool)
    ensures var v := View(data, pos, [], [], [], false, lbf, app); Inv(v) && Means(v) == Plain(data, pos, [])
  {
  }

  class Stream {
    const file: Disk
    const mem: array<Byte>
    const size: nat
    const nord: bool
    const nowr: bool
    const app: bool
    const svb: bool
    const tty: bool
    var rpos: int
    var rend: int
    var wpos: int
    var wbase: int
    var wend: int
    var eof: bool
    var err: bool
    var lbf: bool
    var ttychk: bool
    ghost var back: seq<Byte>

    /** In read mode, in write mode, or in neither. The memory is UNGET bytes and the buffer; without a
        buffer there is room for one byte. */
    ghost predicate Shape()
      reads this
    {
      && mem.Length == UNGET + (if size == 0 then 1 else size) && file.append == app
      && ((rpos == NULL && rend == NULL) || (0 <= rpos <= rend <= mem.Length && rpos + |back| >= UNGET))
      && ((wpos == NULL && wbase == NULL && wend == NULL) || (wbase == UNGET <= wpos <= wend == UNGET + size))
      && (rpos == NULL || wpos == NULL) && (nord ==> rpos == NULL) && (nowr ==> wpos == NULL)
    }

    ghost function Unread(): seq<Byte>
      requires Shape()
      reads this, mem
    {
      if rpos == NULL then [] else mem[rpos..rend]
    }

    ghost function Pending(): seq<Byte>
      requires Shape()
      reads this, mem
    {
      if wpos == NULL then [] else mem[wbase..wpos]
    }

    ghost function V(): View
      requires Shape()
      reads this, mem, file
    {
      View(file.data, file.pos, Unread(), Pending(), back, eof, lbf, app)
    }

    ghost predicate Valid()
      reads this, mem, file
    {
      Shape() && Inv(V())
    }

    /** The plain stream that this one stands for. */
    ghost function Abs(): Plain
      requires Valid()
      reads this, mem, file
    {
      Means(V())
    }

    /** How much is still to be read before the file has to grow. */
    ghost function Ahead(): nat
      requires Shape()
      reads this, mem, file
    {
      AheadOf(V())
    }

    /** Nothing failed beneath, and nothing was refused, since the call. */
    twostate predicate Fine(refused: bool)
      reads file
    {
      file.failures == old(file.failures) && !refused
    }

    /** The error flag is set when something fails, and for no other reason; it stays set. */
    twostate predicate Blames(refused: bool)
      reads this, file
    {
      && (err ==> old(err) || !Fine(refused)) && (old(err) ==> err)
      && file.failures >= old(file.failures) && (file.failures > old(file.failures) ==> err)
    }

    constructor (file: Disk, size: nat, nord: bool, nowr: bool, svb: bool, tty: bool, lbf: bool)
      ensures Valid() && !err && !eof && fresh(mem) && this.file == file && this.size == size && this.nord == nord
          && this.nowr == nowr
      ensures Abs() == Plain(file.data, file.pos, []) && V().unread == [] && wpos == NULL
    {
      this.file, this.size, this.nord, this.nowr, this.app := file, size, nord, nowr, file.append;
      this.svb, this.tty, ttychk := svb, tty, !svb;
      mem := new Byte[UNGET + (if size == 0 then 1 else size)];
      rpos, rend, wpos, wbase, wend := NULL, NULL, NULL, NULL, NULL;
      eof, err, this.lbf := false, false, lbf;
      back := [];
      new;
      hide Inv, Means;
      StartsEmpty(file.data, file.pos, lbf, app);
      assert V() == View(file.data, file.pos, [], [], [], false, lbf, app);
    }

    // ---- __stdio_write ----

    /** The pending bytes and then s, however little the file takes at a time. It returns how many bytes of
        s were written; after a failure the stream is out of write mode. */
    method Write(s: seq<Byte>) returns (n: nat)
      requires Valid() && wpos != NULL
      modifies this`wpos, this`wbase, this`wend, this`err, file
      ensures Valid() && V().pending == [] && n <= |s| && Blames(false) && (wpos != NULL <==> Fine(false))
      ensures wpos != NULL ==> n == |s| && err == old(err) && V() == Written(old(V()), s)
      ensures wpos == NULL ==> err && exists k: nat ::
                k < |old(V()).pending| + |s| && file.data
                    == Overwrite(old(file.data), WritePoint(old(V())), (old(V()).pending + s)[..k])
                && n == if k <= |old(V()).pending| then 0 else k - |old(V()).pending|
    {
      hide Overwrite, Inv, Means, Sent, Written, WritePoint;
      ghost var v0 := V();
      NoReadAhead(v0);
      ghost var k;
      var ok;
      n, ok, k := Deliver(file, mem[wbase..wpos], s, v0);
      if !ok {
        wpos, wbase, wend := NULL, NULL, NULL;
        err := true;
        SentInv(v0, v0.pending + s, k, file.data, file.pos);
        SentIs(v0, v0.pending + s, k, file.data, file.pos);
      } else {
        wpos, wbase := UNGET, UNGET;
        wend := UNGET + size;
        SentAll(v0, s, file.data, file.pos);
        WriteStep(v0, s);
      }
      assert V() == v0.(data := file.data, pos := file.pos, pending := []);
    }

    // ---- changing modes ----

    /** What is pending goes out, and the stream is out of write mode. */
    method FlushOut() returns (ok: bool)
      requires Valid()
      modifies this`wpos, this`wbase, this`wend, this`err, file
      ensures Valid() && wpos == NULL && V().pending == [] && Blames(false) && (ok <==> Fine(false))
      ensures ok ==> err == old(err) && V() == Written(old(V()), []) && Abs() == old(Abs())
      ensures !ok ==> err
      ensures old(wpos) == NULL ==> ok && file.data == old(file.data) && file.pos == old(file.pos)
    {
      hide Inv, Written, Means, Overwrite, WritePoint;
      ghost var v0 := V();
      FlushCases(v0);
      ok := true;
      if wpos != wbase {
        var n := Write([]);
        ok := wpos != NULL;
      } else {
        FlushNothing(v0);
      }
      ghost var v := V();
      wpos, wbase, wend := NULL, NULL, NULL;
      assert V() == v;
    }

    /** Out of write mode and into read mode. */
    method ToRead() returns (bad: bool)
      requires Valid()
      modifies this`rpos, this`rend, this`wpos, this`wbase, this`wend, this`err, file
      ensures Valid() && wpos == NULL && V().pending == []
      ensures bad == (nord || eof) && (nord ==> err)
      ensures !bad ==> rpos != NULL
      ensures old(rpos) == old(rend) ==> rpos == rend
      ensures Blames(nord)
      ensures Fine(nord) ==> !nord && rpos != NULL && bad == eof && V() == Written(old(V()), [])
      ensures old(rpos) != NULL ==> rpos == old(rpos) && rend == old(rend)
      ensures old(wpos) == NULL ==> file.data == old(file.data) && file.pos == old(file.pos)
      ensures old(wpos) == NULL && !nord ==> err == old(err)
    {
      hide Inv, Written, Means;
      var ok := FlushOut();
      ghost var v := V();
      NoBack(v);
      if nord {
        err := true;
        return true;
      }
      if rpos == NULL { rpos, rend := UNGET, UNGET; }
      assert V() == v;
      bad := eof;
    }

    /** Into write mode; what was read ahead is given up. */
    method ToWrite() returns (bad: bool)
      requires Valid() && wend == NULL
      modifies this`rpos, this`rend, this`wpos, this`wbase, this`wend, this`err, this`lbf, this`ttychk, this`back
      ensures Valid() && Blames(nowr) && bad == nowr && (bad ==> err)
      ensures !bad ==> lbf == (old(lbf) || (old(ttychk) && !svb && tty)) && !ttychk
      ensures !bad ==>
          err == old(err) && wpos == wbase != NULL && V() == old(V()).(unread := [], back := [], lbf := lbf)
    {
      hide Inv, Means;
      ghost var v0 := V();
      if nowr {
        err := true;
        assert V() == v0;
        return true;
      }
      CheckTty();
      EmptyHanded(v0, lbf);
      rpos, rend := NULL, NULL;
      back := [];
      wpos, wbase := UNGET, UNGET;
      wend := UNGET + size;
      bad := false;
      assert V() == v0.(unread := [], back := [], lbf := lbf);
    }

    /** The first write finds out whether the stream is to be line-buffered. */
    method CheckTty()
      modifies this`lbf, this`ttychk
      ensures lbf == (old(lbf) || (old(ttychk) && !svb && tty)) && !ttychk
    {
      if ttychk {
        ttychk := false;
        if !svb && tty { lbf := true; }
      }
    }

    method Copy(at: nat, s: seq<Byte>)
      requires at + |s| <= mem.Length
      modifies mem
      ensures mem[..at] == old(mem[..at]) && mem[at..at + |s|] == s && mem[at + |s|..] == old(mem[at + |s|..])
    {
      forall i | 0 <= i < |s| { mem[at + i] := s[i]; }
    }

    // ---- the buffer ----

    /** More of the file into the buffer. */
    method Fill() returns (got: bool)
      requires Valid() && rpos == rend != NULL
      modifies this`rpos, this`rend, this`eof, this`err, this`back, mem, file`pos, file`failures
      ensures Valid()
      ensures Blames(false)
      ensures got ==> err == old(err) && rpos < rend && Abs() == old(Abs()) && Ahead() == old(Ahead())
      ensures !got && Fine(false) ==> eof && Avail(old(Abs())) == [] && Abs() == old(Abs())
    {
      hide Inv, Means, Avail, Refilled, AheadOf;
      ghost var v := V();
      NoBack(v);
      var b, r := file.Read(if size == 0 then 1 else size);
      if r <= 0 {
        if r == 0 {
          AtEndNow(v);
          eof := true;
          assert V() == v.(eof := true);
        } else {
          err := true;
          assert V() == v;
        }
        return false;
      }
      RefillStep(v, r);
      RefilledIs(v, r);
      SameAhead(v, r);
      Copy(UNGET, b);
      rpos, rend := UNGET, UNGET + r;
      back := [];
      assert Unread() == b;
      assert V() == Refilled(v, r);
      got := true;
    }

    /** k of the bytes read ahead. */
    method Take(k: nat) returns (d: seq<Byte>)
      requires Valid() && rpos != NULL && 0 < k <= rend - rpos
      modifies this`rpos, this`back
      ensures Valid() && |d| == k && d <= Avail(old(Abs())) && Abs() == Took(old(Abs()), k)
      ensures d == old(Unread())[..k] && rpos == old(rpos) + k && Ahead() == old(Ahead()) - k
    {
      hide Inv, Means, Avail, Took, Consumed, AheadOf;
      ghost var v := V();
      ConsumeStep(v, k);
      ConsumedIs(v, k);
      LessAhead(v, k);
      d := mem[rpos..rpos + k];
      rpos := rpos + k;
      back := if k <= |back| then back[k..] else [];
      assert Unread() == v.unread[k..];
      assert V() == Consumed(v, k);
      FrontOf(v.unread, Avail(Means(v)), k);
    }

    // ---- single bytes ----

    /** `__uflow`: the next byte when nothing is read ahead. */
    method Uflow() returns (c: int)
      requires Valid() && rpos == rend
      modifies this, mem, file
      ensures Valid() && -1 <= c < 256
      ensures Blames(nord)
      ensures Fine(nord) ==> Got(old(Abs()), c, Abs()) && (c < 0 ==> eof)
      ensures c >= 0 ==> wpos == NULL && (old(wpos) == NULL ==> Ahead() < old(Ahead()))
      ensures nord ==> err && c < 0
    {
      hide Inv, Means, Avail, Took, Written, AheadOf;
      ghost var a, v := Abs(), V();
      FlushStep(v);
      var bad := ToRead();
      assert Fine(nord) ==> Abs() == a;
      if bad {
        if Fine(nord) { AtEnd(V()); }
        return -1;
      }
      SameAheadAs(v, V());
      var got := Fill();
      if !got { return -1; }
      var d := Take(1);
      c := d[0];
      if Fine(nord) { FirstOf(d, Avail(a)); }
    }

    /** `getc`. */
    method Getc() returns (c: int)
      requires Valid()
      modifies this, mem, file
      ensures Valid() && -1 <= c < 256
      ensures Blames(nord)
      ensures Fine(nord) ==> Got(old(Abs()), c, Abs()) && (c < 0 ==> eof)
      ensures nord ==> err && c < 0
    {
      hide Inv, Means, Avail, Took;
      if rpos != rend {
        var d := Take(1);
        c := d[0];
        FirstOf(d, Avail(old(Abs())));
      } else {
        c := Uflow();
      }
    }

    /** `__overflow`: c when there is no room for it or a line ends. */
    method Overflow(c: Byte) returns (r: int)
      requires Valid()
      modifies this, mem, file
      ensures Valid()
      ensures Blames(nowr)
      ensures Fine(nowr) ==> r == c && Abs() == Put(Settled(old(V())), app, [c])
      ensures nowr ==> err && r < 0
      ensures Fine(nowr) ==> rpos == NULL
      ensures Fine(nowr) && Appending(old(V())) ==> Appending(V())
    {
      hide Inv, Means, Put, Written;
      ghost var v0 := V();
      if wend == NULL {
        EmptyHanded(v0, lbf);
        var bad := ToWrite();
        if bad { return -1; }
      }
      NoBack(v0);
      NowSettled(v0, V());
      r := PutByte(c);
    }

    /** In write mode. */
    method PutByte(c: Byte) returns (r: int)
      requires Valid() && wend != NULL
      modifies this`wpos, this`wbase, this`wend, this`err, mem, file
      ensures Valid()
      ensures Blames(false)
      ensures Fine(false) ==> r == c && Abs() == Put(old(Abs()), app, [c])
      ensures Fine(false) && Appending(old(V())) ==> Appending(V())
    {
      hide Inv, Means, Put, Written;
      ghost var v := V();
      if wpos != wend && !(lbf && c == NEWLINE) {
        StoreStep(v, [c]);
        mem[wpos] := c;
        wpos := wpos + 1;
        assert V() == v.(pending := v.pending + [c]);
        return c;
      }
      WriteStep(v, [c]);
      StillAppending(v, [c]);
      var n := Write([c]);
      r := if n != 1 then -1 else c;
    }

    /** `putc`. */
    method Putc(c: Byte) returns (r: int)
      requires Valid()
      modifies this, mem, file
      ensures Valid()
      ensures Blames(nowr)
      ensures Fine(nowr) ==> r == c && Abs() == Put(Settled(old(V())), app, [c])
      ensures nowr ==> err && r < 0
      ensures Fine(nowr) ==> rpos == NULL
      ensures Fine(nowr) && Appending(old(V())) ==> Appending(V())
    {
      hide Inv, Means, Put;
      if !(lbf && c == NEWLINE) && wpos != wend {
        NoBack(V());
        NowSettled(V(), V());
        r := PutByte(c);
      } else {
        r := Overflow(c);
      }
    }

    /** `ungetc`: there is room for UNGET bytes, and more once some of the buffer was read. */
    method Ungetc(c: Byte) returns (r: int)
      requires Valid()
      modifies this, mem, file
      ensures Valid()
      ensures Blames(nord)
      ensures Fine(nord) ==> Abs() == if r < 0 then old(Abs()) else Pushed(old(Abs()), c)
      ensures Fine(nord) && |old(back)| < UNGET ==> r == c
      ensures (r < 0 && eof == old(eof)) || (r == c && !eof)
      ensures old(wpos) == NULL && !nord ==> err == old(err) && wpos == NULL
      ensures old(wpos) == NULL && !nord && r == c ==> Unread() == [c] + old(Unread())
    {
      hide Inv, Means, Written;
      ghost var v0 := V();
      if rpos == NULL {
        NoBack(v0);
        FlushStep(v0);
        var bad := ToRead();
      }
      assert V().unread == v0.unread;
      if rpos == NULL || rpos <= 0 { return -1; }
      PushBack(c);
      r := c;
    }

    method PushBack(c: Byte)
      requires Valid() && rpos > 0
      modifies this`rpos, this`eof, this`back, mem
      ensures Valid() && !eof && Abs() == Pushed(old(Abs()), c) && Unread() == [c] + old(Unread())
    {
      hide Inv, Means;
      ghost var v := V();
      PushStep(v, c);
      mem[rpos - 1] := c;
      assert mem[rpos..rend] == v.unread;
      assert mem[rpos - 1..rend] == [c] + mem[rpos..rend];
      rpos := rpos - 1;
      eof := false;
      back := [c] + back;
      assert V() == v.(unread := [c] + v.unread, back := [c] + v.back, eof := false);
    }

    // ---- blocks ----

    /** `__fwritex`: through to the file when s does not fit, and in line mode up to its last newline. */
    method Fwritex(s: seq<Byte>) returns (n: nat)
      requires Valid()
      modifies this, mem, file
      ensures Valid() && n <= |s|
      ensures Blames(nowr)
      ensures Fine(nowr) ==> n == |s| && Abs() == Put(Settled(old(V())), app, s)
      ensures nowr ==> err && n == 0
      ensures Fine(nowr) ==> rpos == NULL
      ensures Fine(nowr) && Appending(old(V())) ==> Appending(V())
    {
      hide Inv, Means, Put, Written;
      ghost var v0 := V();
      if wend == NULL {
        var bad := ToWrite();
        if bad { return 0; }
      }
      NoBack(v0);
      NowSettled(v0, V());
      n := PutAll(s);
    }

    /** In write mode. */
    method PutAll(s: seq<Byte>) returns (n: nat)
      requires Valid() && wend != NULL
      modifies this`wpos, this`wbase, this`wend, this`err, mem, file
      ensures Valid() && n <= |s|
      ensures Blames(false)
      ensures Fine(false) ==> n == |s| && Abs() == Put(old(Abs()), app, s)
      ensures Fine(false) && Appending(old(V())) ==> Appending(V())
    {
      hide Inv, Means, Put, Written;
      ghost var v := V();
      if |s| > wend - wpos {
        WriteStep(v, s);
        StillAppending(v, s);
        n := Write(s);
        return;
      }
      var i := 0;
      if lbf {
        i := AfterLastNewline(s);
        if i > 0 {
          WriteStep(v, s[..i]);
          StillAppending(v, s[..i]);
          n := Write(s[..i]);
          if n < i { return; }
        }
      }
      n := |s|;
      Buffer(s[i..]);
      WritePosition(v);
      PutTwice(Means(v), app, s[..i], s[i..]);
      assert s[..i] + s[i..] == s;
      if i == 0 { PutNothing(v); }
    }

    /** The end of the last line in s. */
    method AfterLastNewline(s: seq<Byte>) returns (i: nat)
      ensures i <= |s| && NEWLINE !in s[i..] && (i > 0 ==> s[i - 1] == NEWLINE)
    {
      i := |s|;
      while i > 0 && s[i - 1] != NEWLINE
        invariant i <= |s| && NEWLINE !in s[i..]
      {
        i := i - 1;
        assert s[i..] == [s[i]] + s[i + 1..];
      }
    }

    /** Into the buffer, which has room. */
    method Buffer(s: seq<Byte>)
      requires Valid() && wend != NULL && |s| <= wend - wpos && (lbf ==> NEWLINE !in s)
      modifies this`wpos, mem
      ensures Valid() && Abs() == Put(old(Abs()), app, s) && (Appending(old(V())) ==> Appending(V()))
    {
      hide Inv, Means, Put;
      ghost var v := V();
      StoreStep(v, s);
      Copy(wpos, s);
      assert mem[wbase..wpos + |s|] == v.pending + s;
      wpos := wpos + |s|;
      assert V() == v.(pending := v.pending + s);
    }

    /** `fread` without its last division: large reads go past the buffer. */
    method ReadBytes(len: nat) returns (d: seq<Byte>)
      requires Valid()
      modifies this, mem, file
      ensures Valid() && |d| <= len
      ensures Blames(nord)
      ensures Fine(nord) ==> GotMany(old(Abs()), len, d, Abs())
    {
      hide Inv, Means, Avail, Took, Written;
      ghost var a := Abs();
      d := [];
      var l: nat := len;
      PartNone(V());
      while l > 0
        invariant Valid() && |d| + l == len && Blames(nord)
        invariant Fine(nord) ==> Part(a, d, Abs())
        decreases l, rpos == rend
      {
        if rpos != rend {
          var k: nat := if rend - rpos > l then l else rend - rpos;
          ghost var b := Abs();
          var t := Take(k);
          if Fine(nord) { PartMore(a, d, b, t, Abs()); }
          d, l := d + t, l - k;
          continue;
        }
        var more, t := More(l);
        if Fine(nord) { PartMore(a, d, Took(a, |d|), t, Abs()); }
        d, l := d + t, l - |t|;
        if !more {
          if Fine(nord) { PartAll(a, d, Abs()); }
          return;
        }
      }
    }

    /** With nothing read ahead: past the buffer when l bytes would fill it, else into it. */
    method More(l: nat) returns (more: bool, t: seq<Byte>)
      requires Valid() && rpos == rend && l > 0
      modifies this, mem, file
      ensures Valid() && |t| <= l
      ensures Blames(nord)
      ensures more ==> t != [] || rpos != rend
      ensures Fine(nord) ==> t <= Avail(old(Abs())) && Abs() == Took(old(Abs()), |t|)
      ensures Fine(nord) && !more ==> t == [] && Avail(Abs()) == []
    {
      hide Inv, Means, Avail, Took, Written;
      t := [];
      TookNone(Abs());
      ghost var a := Abs();
      FlushStep(V());
      var bad := ToRead();
      assert Fine(nord) ==> Abs() == a;
      if bad {
        if Fine(nord) { AtEnd(V()); }
        return false, [];
      }
      if l >= size { more, t := Bypass(l); } else { more := Fill(); }
    }

    /** Straight out of the file. */
    method Bypass(l: nat) returns (more: bool, t: seq<Byte>)
      requires Valid() && rpos == rend != NULL && l > 0
      modifies this`eof, this`err, file`pos, file`failures
      ensures Valid() && |t| <= l && (more <==> t != [])
      ensures Blames(false)
      ensures more ==> err == old(err)
      ensures Fine(false) ==> t <= Avail(old(Abs())) && Abs() == Took(old(Abs()), |t|)
      ensures Fine(false) && !more ==> Avail(Abs()) == []
    {
      hide Inv, Means, Avail, Took;
      ghost var v := V();
      NoBack(v);
      var r;
      t, r := file.Read(l);
      if r <= 0 {
        if r == 0 {
          AtEndNow(v);
          TookNone(Abs());
          eof := true;
          assert V() == v.(eof := true);
        } else {
          err := true;
          assert V() == v;
        }
        return false, [];
      }
      BypassStep(v, r);
      assert V() == v.(pos := v.pos + r);
      more := true;
    }

    /** `fread`: so many whole members. */
    method Fread(width: nat, nmemb: nat) returns (d: seq<Byte>, members: nat)
      requires Valid()
      modifies this, mem, file
      ensures Valid() && members * width <= |d| && members <= nmemb
      ensures Blames(nord)
      ensures width * nmemb == 0 || width * nmemb > SIZE_MAX ==>
          d == [] && members == 0 && (Fine(nord) ==> Abs() == old(Abs()))
      ensures 0 < width * nmemb <= SIZE_MAX && Fine(nord) ==>
          GotMany(old(Abs()), width * nmemb, d, Abs()) && members == |d| / width
    {
      hide GotMany, Inv, Means;
      if width * nmemb > SIZE_MAX || width * nmemb == 0 { return [], 0; }
      Positive(width, nmemb);
      d := ReadBytes(width * nmemb);
      members := |d| / width;
      WholeMembers(|d|, width, nmemb);
    }

    /** `fwrite`: so many whole members. */
    method Fwrite(s: seq<Byte>, width: nat, nmemb: nat) returns (members: nat)
      requires Valid() && |s| == width * nmemb
      modifies this, mem, file
      ensures Valid() && members <= nmemb
      ensures Blames(nowr)
      ensures |s| == 0 || |s| > SIZE_MAX ==> members == 0 && (Fine(nowr) ==> Abs() == old(Abs()))
      ensures 0 < |s| <= SIZE_MAX && Fine(nowr) ==> members == nmemb && Abs() == Put(Settled(old(V())), app, s)
    {
      hide Put, Settled, Inv, Means;
      if |s| > SIZE_MAX || |s| == 0 { return 0; }
      Positive(width, nmemb);
      var k := Fwritex(s);
      WholeMembers(k, width, nmemb);
      members := if k == |s| then nmemb else k / width;
    }

    // ---- lines ----

    /** `fgets`: a line of at most n - 1 bytes; none at the end of the file. */
    method Fgets(n: int) returns (line: seq<Byte>, ok: bool)
      requires Valid()
      modifies this, mem, file
      ensures Valid()
      ensures Blames(nord)
      ensures n <= 0 ==> !ok && (Fine(nord) ==> Abs() == old(Abs()))
      ensures n > 0 && Fine(nord) ==> GotLine(old(Abs()), NEWLINE, n - 1, line, Abs())
      ensures n > 0 && Fine(nord) ==>
          (ok <==> (line != [] || n == 1) && (|line| == n - 1 || line[|line| - 1] == NEWLINE || !old(err)))
    {
      hide Inv, Means, Avail, Took;
      line := [];
      if n <= 0 { return [], false; }
      ghost var a := Abs();
      PartNone(V());
      var room: nat := n - 1;
      var failed := false;
      while room > 0
        invariant Valid() && |line| + room == n - 1 && NEWLINE !in line && Blames(nord)
        invariant Fine(nord) ==> Part(a, line, Abs())
        decreases room
      {
        ghost var b := Abs();
        var t, more := LinePart(NEWLINE, room);
        if Fine(nord) { PartMore(a, line, b, t, Abs()); }
        line, room := line + t, room - |t|;
        if !more {
          failed := t == [] && err;
          if Fine(nord) && t == [] { PartAll(a, line, Abs()); }
          return line, !(failed || (line == [] && n > 1));
        }
      }
      ok := true;
      if line == [] && n > 1 { ok := false; }
    }

    /** Part of a line, up to room bytes: from what is read ahead, or one byte more. It is the last part when
        it ends with delim or is empty. */
    method LinePart(delim: Byte, room: nat) returns (t: seq<Byte>, more: bool)
      requires Valid() && room > 0
      modifies this, mem, file
      ensures Valid() && |t| <= room
      ensures Blames(nord)
      ensures more ==> t != [] && delim !in t && wpos == NULL && (old(wpos) == NULL ==> Ahead() < old(Ahead()))
      ensures !more ==> t == [] || (delim !in t[..|t| - 1] && t[|t| - 1] == delim)
      ensures Fine(nord) ==> t <= Avail(old(Abs())) && Abs() == Took(old(Abs()), |t|)
      ensures Fine(nord) && t == [] ==> Avail(Abs()) == []
    {
      hide Inv, Means, Avail, Took, AheadOf;
      if rpos != rend {
        var k := FirstIn(delim);
        t := Take(if k > room then room else k);
        more := t[|t| - 1] != delim;
        return;
      }
      TookNone(Abs());
      var c := Uflow();
      if c < 0 { return [], false; }
      t := [c];
      more := c != delim;
      if Fine(nord) { FirstIsPrefix(c, Avail(old(Abs()))); }
    }

    /** `memchr` in what is read ahead: the bytes up to delim, or all of them. */
    method FirstIn(delim: Byte) returns (k: nat)
      requires Valid() && rpos != rend
      ensures 0 < k <= rend - rpos && delim !in Unread()[..k - 1]
      ensures k < rend - rpos ==> Unread()[k - 1] == delim
    {
      k := 0;
      while k < rend - rpos && mem[rpos + k] != delim
        invariant k <= rend - rpos && delim !in mem[rpos..rpos + k]
      {
        assert mem[rpos..rpos + k + 1] == mem[rpos..rpos + k] + [mem[rpos + k]];
        k := k + 1;
      }
      assert Unread()[..k] == mem[rpos..rpos + k];
      if k < rend - rpos {
        k := k + 1;
      } else {
        assert Unread()[..k - 1] == mem[rpos..rpos + k - 1];
      }
    }

    /** `getdelim`: a whole line, in memory that grows to hold it and its end. */
    method Getdelim(delim: Byte, cap0: nat) returns (line: seq<Byte>, cap: nat, ok: bool)
      requires Valid()
      modifies this, mem, file
      ensures Valid() && cap >= cap0
      ensures Blames(nord)
      ensures |line| < cap && (ok ==> line != [])
      ensures Fine(nord) ==> GotLine(old(Abs()), delim, -1, line, Abs())
      ensures Fine(nord) ==> (ok <==> line != [] && (line[|line| - 1] == delim || !old(err)))
    {
      hide Inv, Means, Avail, Took, AheadOf, Part, GotLine, IsAhead;
      line, cap := [], cap0;
      ghost var a := Abs();
      PartNone(V());
      while true
        invariant Valid() && cap >= cap0 && delim !in line && Blames(nord)
        invariant Fine(nord) ==> Part(a, line, Abs())
        decreases wpos != NULL, Ahead()
      {
        var k, z := LineAhead(delim);
        cap := Room(cap, |line| + k + 2);
        var d := TakeAhead(delim, k, z, line, a, Fine(nord));
        line := line + d;
        assert |line| < cap;
        if z { return line, cap, true; }
        var c := NextOfLine(delim, line, a, Fine(nord));
        if c < 0 { return line, cap, line != [] && !err; }
        assert |line| < cap;
        line := line + [c];
        assert |line| < cap;
        if c == delim { return line, cap, true; }
      }
    }

    /** The first k bytes read ahead belong to the line: up to delim if z, else all of them. */
    ghost predicate IsAhead(delim: Byte, k: nat, z: bool)
      requires Shape()
      reads this, mem
    {
      && (rpos == rend ==> k == 0 && !z)
      && (rpos != rend ==>
          && 0 < k <= rend - rpos && delim !in Unread()[..k - 1] && (z <==> Unread()[k - 1] == delim)
          && (!z ==> k == rend - rpos))
    }

    method LineAhead(delim: Byte) returns (k: nat, z: bool)
      requires Valid()
      ensures IsAhead(delim, k, z) && (z ==> k > 0)
    {
      hide Inv;
      k, z := 0, false;
      if rpos != rend {
        k := FirstIn(delim);
        z := mem[rpos + k - 1] == delim;
      }
    }

    /** What is read ahead of a line, up to its end if z. */
    method TakeAhead(delim: Byte, k: nat, z: bool, ghost line: seq<Byte>, ghost a: Plain, ghost fine: bool)
      returns (d: seq<Byte>)
      requires Valid() && delim !in line && (fine ==> Part(a, line, Abs()))
      requires IsAhead(delim, k, z)
      modifies this`rpos, this`back
      ensures Valid() && |d| == k && (!z ==> rpos == rend) && Ahead() <= old(Ahead())
      ensures z && fine ==> GotLine(a, delim, -1, line + d, Abs())
      ensures z ==> (line + d)[|line + d| - 1] == delim
      ensures !z ==> delim !in line + d && (fine ==> Part(a, line + d, Abs()))
    {
      hide Inv, Means, Avail, Took, AheadOf, Part, GotLine;
      d := [];
      assert line + d == line;
      if k == 0 { return; }
      ghost var b := Abs();
      d := Take(k);
      if fine { PartMore(a, line, b, d, Abs()); }
      assert d[..k - 1] == old(Unread())[..k - 1];
      if z {
        if fine { PartLine(a, delim, line, d, Abs()); }
      } else {
        NotIn(delim, line, d);
      }
    }

    /** One byte more of a line, when nothing is read ahead. */
    method NextOfLine(delim: Byte, ghost line: seq<Byte>, ghost a: Plain, ghost fine: bool) returns (c: int)
      requires Valid() && rpos == rend && delim !in line && (fine ==> Part(a, line, Abs()))
      modifies this, mem, file
      ensures Valid() && -1 <= c < 256
      ensures Blames(nord)
      ensures c >= 0 ==> wpos == NULL && (old(wpos) == NULL ==> Ahead() < old(Ahead()))
      ensures fine && Fine(nord) && c < 0 ==> GotLine(a, delim, -1, line, Abs())
      ensures fine && Fine(nord) && c >= 0 ==> Part(a, line + [c], Abs())
      ensures fine && Fine(nord) && c == delim ==> GotLine(a, delim, -1, line + [c], Abs())
    {
      hide Inv, Means, Avail, Took, AheadOf, Part, GotLine;
      ghost var b := Abs();
      c := Uflow();
      if fine && Fine(nord) {
        if c < 0 {
          PartEnd(a, delim, line, b);
        } else {
          PartByte(a, line, b, c, Abs());
          if c == delim { PartLine(a, delim, line, [c], Abs()); }
        }
      }
    }

    /** The size of the memory after making room for m bytes. */
    method Room(cap: nat, m: nat) returns (r: nat)
      ensures r >= cap && r >= m
    {
      r := if m > cap then m + m / 2 + 64 else cap;
    }

    // ---- flushing and positioning ----

    /** `fflush`: everything is in the file, and the file is where the stream was; unless it cannot seek or
        bytes were pushed back before its start, when it stays where it is. */
    method Fflush() returns (r: int)
      requires Valid()
      modifies this`rpos, this`rend, this`wpos, this`wbase, this`wend, this`err, this`back, file
      ensures Valid()
      ensures Blames(false)
      ensures Fine(false) ==> r == 0 && rpos == wpos == NULL && file.data == old(Abs()).content
      ensures old(wpos) == NULL ==> err == old(err)
      ensures Fine(false) && old(Unread()) == [] && Appending(old(V())) ==> Appending(V())
      ensures Fine(false) ==>
                var a := old(Abs());
                Abs() == if old(Unread()) == [] then a
                    else Moved(a, if file.seekable && a.at >= 0 then a.at else old(file.pos))
    {
      hide Inv, Written, Means;
      ghost var v0 := V();
      NoBack(v0);
      FlushCases(v0);
      if v0.pending == [] { FlushNothing(v0); }
      var ok := FlushOut();
      if !ok { return -1; }
      ghost var v := V();
      WrittenKeeps(v0);
      StillAppending(v0, []);
      FlushedData(v);
      if rpos != rend {
        var p := file.Lseek(rpos - rend, Cur);
        SeekStep(v, file.pos);
        NotAtEnd(v);
      }
      rpos, rend := NULL, NULL;
      back := [];
      r := 0;
      assert V() == v.(pos := file.pos, unread := [], back := []);
    }

    /** `fseek`. */
    method Fseek(off: int, whence: Whence) returns (r: int)
      requires Valid()
      modifies this, file
      ensures Valid()
      ensures Blames(false)
      ensures Fine(false) ==>
                var a := old(Abs()); var q := Target(off, whence, a.at, |a.content|);
                if file.seekable && q >= 0 then r == 0 && !eof && Abs() == Moved(a, q) else r == -1 && Abs() == a
      ensures Fine(false) ==> if r == 0 then rpos == NULL else Unread() == old(Unread())
    {
      hide Inv, Written, Means;
      var offset := off;
      if whence == Cur && rend != NULL { offset := offset - (rend - rpos); }
      WrittenKeeps(V());
      var ok := FlushOut();
      if !ok { return -1; }
      r := Reposition(offset, whence);
    }

    /** The part of `fseek` after the flush. */
    method Reposition(off: int, whence: Whence) returns (r: int)
      requires Valid() && wpos == NULL
      modifies this`rpos, this`rend, this`eof, this`back, file`pos
      ensures Valid()
      ensures var a := old(Abs()); var q := Target(off, whence, a.at + |old(Unread())|, |a.content|);
              if file.seekable && q >= 0 then r == 0 && !eof && Abs() == Moved(a, q) else r == -1 && Abs() == a
      ensures if r == 0 then rpos == NULL else Unread() == old(Unread())
    {
      hide Inv, Means;
      ghost var v := V();
      FlushedData(v);
      var p := file.Lseek(off, whence);
      if p < 0 {
        assert V() == v;
        return -1;
      }
      SeekStep(v, file.pos);
      rpos, rend := NULL, NULL;
      back := [];
      eof := false;
      assert V() == v.(pos := file.pos, unread := [], back := [], eof := false);
      r := 0;
    }

    /** `ftell`: the position of the plain stream, whatever is read ahead, pushed back or pending. */
    method Ftell() returns (r: int)
      requires Valid()
      modifies file`pos
      ensures Valid() && Abs() == old(Abs()) && r == if file.seekable then Abs().at else -1
    {
      hide Inv;
      ghost var v := V();
      NoBack(v);
      var whence := if app && wpos != wbase then End else Cur;
      r := file.Lseek(0, whence);
      AppendPosition(v, file.pos);
      assert V() == v.(pos := file.pos);
      if r < 0 { return; }
      if rend != NULL { r := r + (rpos - rend); } else if wbase != NULL { r := r + (wpos - wbase); }
    }
  }

  /** The loop of `__stdio_write`. */
  method Deliver(file: Disk, pend: seq<Byte>, s: seq<Byte>, ghost v: View) returns (n: nat, ok: bool, ghost k: nat)
    requires v.pending == pend && file.data == v.data && file.pos == v.pos && file.append == v.app
    modifies file
    ensures n <= |s| && Sent(v, pend + s, k, file.data, file.pos)
    ensures ok ==> n == |s| && k == |pend| + |s| && file.failures == old(file.failures)
    ensures !ok ==>
        file.failures == old(file.failures) + 1 && k < |pend| + |s| && n == if k <= |pend| then 0 else k - |pend|
  {
    hide Overwrite, Left, Sent, Flat, WritePoint;
    ghost var all := pend + s;
    k := 0;
    var vs := if pend == [] then [s] else [pend, s];
    var rem := |pend| + |s|;
    FlatTwo(pend, s);
    NothingYet(v, all);
    while rem > 0
      invariant rem == |all| - k && k <= |all|
      invariant Sent(v, all, k, file.data, file.pos) && Left(pend, s, k, vs) && file.failures == old(file.failures)
      decreases rem
    {
      LeftFlat(pend, s, k, vs); LeftCount(pend, s, k, vs);
      ghost var d, p := file.data, file.pos;
      var r := file.Writev(Flat(vs));
      if r <= 0 { return if |vs| == 2 then 0 else |s| - |vs[0]|, false, k; }
      SentMore(v, all, k, d, p, r, file.data, file.pos);
      rem := rem - r;
      vs := Advance(pend, s, k, vs, r);
      k := k + r;
    }
    n, ok := |s|, true;
  }

  /** k bytes of all have reached the file. */
  ghost predicate Sent(v: View, all: seq<Byte>, k: nat, data: seq<Byte>, pos: nat) {
    k <= |all| && data == Overwrite(v.data, WritePoint(v), all[..k])
        && pos == if k == 0 then v.pos else WritePoint(v) + k
  }

  /** The pieces that are left of pend and s after k bytes. */
  ghost predicate Left(pend: seq<Byte>, s: seq<Byte>, k: nat, vs: seq<seq<Byte>>) {
    if k < |pend| then vs == [pend[k..], s]
    else k <= |pend| + |s| && (vs == [s[k - |pend|..]] || (vs == [] && k == |pend| + |s|))
  }

  lemma FlatTwo(pend: seq<Byte>, s: seq<Byte>)
    ensures Left(pend, s, 0, if pend == [] then [s] else [pend, s])
  {
    assert pend[0..] == pend && s[0..] == s;
  }

  lemma LeftFlat(pend: seq<Byte>, s: seq<Byte>, k: nat, vs: seq<seq<Byte>>)
    requires Left(pend, s, k, vs)
    ensures k <= |pend + s| && Flat(vs) == (pend + s)[k..]
  {
    if k < |pend| {
      assert [pend[k..], s][1..] == [s] && [s][1..] == [];
      assert Flat([s]) == s + [] == s;
    } else if vs != [] {
      assert vs[1..] == [] && vs[0] + [] == vs[0];
    }
  }

  lemma LeftCount(pend: seq<Byte>, s: seq<Byte>, k: nat, vs: seq<seq<Byte>>)
    requires Left(pend, s, k, vs) && k < |pend| + |s|
    ensures |vs| == 2 || |vs| == 1
    ensures (if |vs| == 2 then 0 else |s| - |vs[0]|) == if k <= |pend| then 0 else k - |pend|
  {
  }

  /** Past the pieces that are done and into the next. */
  method Advance(ghost pend: seq<Byte>, ghost s: seq<Byte>, ghost k: nat, vs0: seq<seq<Byte>>, r0: nat)
    returns (vs: seq<seq<Byte>>)
    requires Left(pend, s, k, vs0) && k + r0 <= |pend| + |s| && r0 > 0
    ensures Left(pend, s, k + r0, vs)
  {
    vs := vs0;
    var r: nat := r0;
    while vs != [] && r >= |vs[0]|
      invariant r <= r0 && (vs == [] ==> k + r0 == |pend| + |s| && r == 0)
          && (vs != [] ==> Left(pend, s, k + r0 - r, vs))
      decreases |vs|
    {
      r := r - |vs[0]|;
      vs := vs[1..];
    }
    if vs != [] { vs := [vs[0][r..]] + vs[1..]; }
  }

  lemma NoReadAhead(v: View)
    requires Inv(v) && v.unread == []
    ensures v.back == []
  {
  }

  lemma SentIs(v: View, all: seq<Byte>, k: nat, d: seq<Byte>, p: nat)
    requires Sent(v, all, k, d, p)
    ensures k <= |all| && d == Overwrite(v.data, WritePoint(v), all[..k])
  {
  }

  lemma NothingYet(v: View, all: seq<Byte>)
    ensures Sent(v, all, 0, v.data, v.pos)
  {
    assert all[..0] == [];
  }

  lemma SentMore(v: View, all: seq<Byte>, k: nat, d: seq<Byte>, p: nat, r: nat, d': seq<Byte>, p': nat)
    requires Sent(v, all, k, d, p) && 0 < r && k + r <= |all|
    requires var q := if v.app then |d| else p; d' == Overwrite(d, q, all[k..][..r]) && p' == q + r
    ensures Sent(v, all, k + r, d', p')
  {
    hide Overwrite;
    var w := WritePoint(v);
    OverwriteTwice(v.data, w, all[..k], all[k..][..r]);
    assert all[..k] + all[k..][..r] == all[..k + r];
    if v.app { OverwriteEnd(v.data, all[..k]); }
  }

  lemma SentInv(v: View, all: seq<Byte>, k: nat, d: seq<Byte>, p: nat)
    requires Inv(v) && v.unread == [] && Sent(v, all, k, d, p)
    ensures Inv(v.(data := d, pos := p, pending := []))
  {
    if k > 0 { OverwriteAt(v.data, WritePoint(v), all[..k], 0); } else { assert all[..0] == []; }
  }

  lemma SentAll(v: View, s: seq<Byte>, d: seq<Byte>, p: nat)
    requires Sent(v, v.pending + s, |v.pending + s|, d, p)
    ensures v.(data := d, pos := p, pending := []) == Written(v, s)
  {
    var all := v.pending + s;
    assert all[..|all|] == all;
  }

  lemma NoBack(v: View)
    requires Inv(v)
    ensures v.unread == [] ==> v.back == []
  {
  }

  lemma EmptyHanded(v: View, lbf: bool)
    requires Inv(v) && v.pending == []
    ensures Inv(v.(unread := [], back := [], lbf := lbf))
  {
  }

  lemma FrontOf(u: seq<Byte>, s: seq<Byte>, k: nat)
    requires u <= s && k <= |u|
    ensures u[..k] <= s
  {
  }

  lemma AtEnd(v: View)
    requires Inv(v) && v.eof && v.pending == []
    ensures v.unread == [] && Avail(Means(v)) == []
  {
    EndStep(v);
  }

  lemma AtEndNow(v: View)
    requires Inv(v) && v.unread == [] && v.pending == [] && v.pos >= |v.data|
    ensures Avail(Means(v)) == [] && Inv(v.(eof := true)) && Means(v.(eof := true)) == Means(v)
  {
    EndStep(v);
  }

  lemma RefilledIs(v: View, n: nat)
    requires v.pos + n <= |v.data|
    ensures Refilled(v, n) == v.(pos := v.pos + n, unread := v.data[v.pos..v.pos + n], back := [])
  {
  }

  lemma ConsumedIs(v: View, k: nat)
    requires k <= |v.unread|
    ensures Consumed(v, k) == v.(unread := v.unread[k..], back := if k <= |v.back| then v.back[k..] else [])
  {
  }

  lemma FirstOf(u: seq<Byte>, s: seq<Byte>)
    requires u != [] && u <= s
    ensures s != [] && s[0] == u[0]
  {
  }

  /** In write mode, or with what was read ahead given up. */
  lemma NowSettled(v0: View, v: View)
    requires Inv(v0) && Inv(v) && v.unread == [] && v == v0.(unread := [], back := [], lbf := v.lbf)
    ensures Means(v) == Settled(v0)
  {
  }

  lemma WritePosition(v: View)
    requires Inv(v) && v.unread == []
    ensures Means(v).at >= 0
  {
  }

  lemma PutNothing(v: View)
    requires Inv(v) && v.unread == []
    ensures Put(Means(v), v.app, []) == Means(v)
  {
  }

  lemma FlushCases(v: View)
    requires Inv(v)
    ensures v.unread == [] ==>
        Inv(Written(v, [])) && Means(Written(v, [])) == Means(v) && Written(v, []).unread == []
            && Written(v, []).pending == []
    ensures v.unread != [] ==> v.pending == []
  {
    if v.unread == [] { FlushStep(v); }
  }

  lemma FlushedData(v: View)
    requires v.pending == []
    ensures Means(v) == Plain(v.data, v.pos - |v.unread|, v.back)
  {
  }

  lemma WrittenKeeps(v: View)
    ensures Written(v, []).unread == v.unread && Written(v, []).back == v.back && Written(v, []).eof == v.eof
  {
  }

  lemma NotAtEnd(v: View)
    requires Inv(v) && v.unread != []
    ensures !v.eof
  {
  }

  /** Going to the end to ask where it is leaves the stream where it is. */
  lemma AppendPosition(v: View, pos: nat)
    requires Inv(v) && (pos == v.pos || (v.app && v.pending != [] && pos == |v.data|))
    ensures Inv(v.(pos := pos)) && Means(v.(pos := pos)) == Means(v)
  {
  }

  // ---- reading in parts ----

  /** d is the front of what there was in a, and b what is left. */
  ghost predicate Part(a: Plain, d: seq<Byte>, b: Plain) { d <= Avail(a) && b == Took(a, |d|) && a.at + |a.back| >= 0 }

  lemma TookNone(a: Plain)
    ensures Took(a, 0) == a
  {
  }

  lemma PartNone(v: View)
    requires Inv(v)
    ensures Part(Means(v), [], Means(v))
  {
  }

  lemma PartLine(a: Plain, delim: Byte, p: seq<Byte>, t: seq<Byte>, b: Plain)
    requires Part(a, p + t, b) && delim !in p
    requires if t == [] then p + t == Avail(a) else delim !in t[..|t| - 1] && t[|t| - 1] == delim
    ensures GotLine(a, delim, -1, p + t, b)
  {
    hide Avail, Took;
    var d := p + t;
    if t == [] {
      assert d == p;
    } else {
      assert d[..|d| - 1] == p + t[..|t| - 1] && d[|d| - 1] == t[|t| - 1];
    }
    if d != [] && t == [] { assert forall i | 0 <= i < |d| :: d[i] != delim; }
  }

  lemma PartMore(a: Plain, d: seq<Byte>, b: Plain, t: seq<Byte>, c: Plain)
    requires Part(a, d, b) && t <= Avail(b) && c == Took(b, |t|)
    ensures Part(a, d + t, c)
  {
    hide Avail, Took;
    TookAvail(a, |d|);
    TookTwice(a, |d|, |t|);
    assert Avail(a) == d + Avail(a)[|d|..];
    assert (d + t) == Avail(a)[..|d| + |t|];
  }

  lemma PartByte(a: Plain, d: seq<Byte>, b: Plain, c: int, b': Plain)
    requires Part(a, d, b) && c >= 0 && Got(b, c, b')
    ensures Part(a, d + [c], b')
  {
    hide Avail, Took;
    FirstIsPrefix(c, Avail(b));
    PartMore(a, d, b, [c], b');
  }

  lemma PartEnd(a: Plain, delim: Byte, d: seq<Byte>, b: Plain)
    requires Part(a, d, b) && Avail(b) == [] && delim !in d
    ensures GotLine(a, delim, -1, d, b)
  {
    hide Avail, Took;
    PartAll(a, d, b);
    assert d + [] == d;
    PartLine(a, delim, d, [], b);
  }

  lemma NotIn(c: Byte, p: seq<Byte>, d: seq<Byte>)
    requires c !in p && d != [] && c !in d[..|d| - 1] && d[|d| - 1] != c
    ensures c !in p + d
  {
    assert d == d[..|d| - 1] + [d[|d| - 1]];
  }

  lemma PartAll(a: Plain, d: seq<Byte>, b: Plain)
    requires Part(a, d, b) && Avail(b) == []
    ensures d == Avail(a)
  {
    hide Avail, Took;
    TookAvail(a, |d|);
  }

  lemma FirstIsPrefix(c: Byte, s: seq<Byte>)
    requires s != [] && s[0] == c
    ensures [c] <= s
  {
  }

  lemma Positive(a: nat, b: nat)
    requires a * b > 0
    ensures a > 0 && b > 0
  {
  }

  lemma WholeMembers(k: nat, width: nat, nmemb: nat)
    requires width > 0 && k <= width * nmemb
    ensures k / width <= nmemb && k / width * width <= k
  {
  }

  lemma SameAhead(v: View, n: nat)
    requires v.unread == [] && v.pos + n <= |v.data|
    ensures AheadOf(Refilled(v, n)) == AheadOf(v)
  {
  }

  lemma LessAhead(v: View, k: nat)
    requires k <= |v.unread|
    ensures AheadOf(Consumed(v, k)) == AheadOf(v) - k
  {
  }

  lemma SameAheadAs(v: View, w: View)
    ensures v.data == w.data && v.pos == w.pos && v.unread == w.unread ==> AheadOf(v) == AheadOf(w)
  {
  }
}
