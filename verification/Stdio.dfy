/** What a buffered stream stands for: the plain file beneath it with everything written so far in place, and
    one position in it. The concrete side is the file, what was read ahead and what is still to be written. */
module Stdio {
  import Utf8

  type Byte = Utf8.Byte

  const NEWLINE: Byte := 10

  // ---- files ----

  /** d from position p on overwritten with s; a hole is filled with zeros. */
  function Overwrite(d: seq<Byte>, p: nat, s: seq<Byte>): seq<Byte> {
    if s == [] then d
    else if p >= |d| then d + seq(p - |d|, _ => 0) + s
    else if p + |s| >= |d| then d[..p] + s
    else d[..p] + s + d[p + |s|..]
  }

  lemma OverwriteAt(d: seq<Byte>, p: nat, s: seq<Byte>, i: nat)
    requires s != []
    ensures |Overwrite(d, p, s)| == if p + |s| >= |d| then p + |s| else |d|
    ensures i < |Overwrite(d, p, s)| ==>
              Overwrite(d, p, s)[i] == if p <= i < p + |s| then s[i - p] else if i < |d| then d[i] else 0
  {
  }

  lemma OverwriteNone(d: seq<Byte>, p: nat)
    ensures Overwrite(d, p, []) == d
  {
  }

  /** Two writes one behind the other are one. */
  lemma OverwriteTwice(d: seq<Byte>, p: nat, a: seq<Byte>, b: seq<Byte>)
    ensures Overwrite(Overwrite(d, p, a), p + |a|, b) == Overwrite(d, p, a + b)
  {
    hide Overwrite;
    OverwriteNone(d, p);
    OverwriteNone(Overwrite(d, p, a), p + |a|);
    if a == [] {
      assert a + b == b;
    } else if b == [] {
      assert a + b == a;
    } else {
      var x, y := Overwrite(Overwrite(d, p, a), p + |a|, b), Overwrite(d, p, a + b);
      forall i: nat ensures |x| == |y| && (i < |x| ==> x[i] == y[i]) { TwiceAt(d, p, a, b, i); }
      TwiceAt(d, p, a, b, 0);
      assert x == y;
    }
  }

  lemma TwiceAt(d: seq<Byte>, p: nat, a: seq<Byte>, b: seq<Byte>, i: nat)
    requires a != [] && b != []
    ensures var x, y := Overwrite(Overwrite(d, p, a), p + |a|, b), Overwrite(d, p, a + b);
            |x| == |y| && (i < |x| ==> x[i] == y[i])
  {
    hide Overwrite;
    OverwriteAt(d, p, a, i); OverwriteAt(Overwrite(d, p, a), p + |a|, b, i); OverwriteAt(d, p, a + b, i);
  }

  lemma OverwriteEnd(d: seq<Byte>, s: seq<Byte>)
    ensures Overwrite(d, |d|, s) == d + s
  {
    if s == [] { assert d + s == d; } else { assert d + seq(0, _ => 0) + s == d + s; }
  }

  function Drop(s: seq<Byte>, i: int): seq<Byte> { if 0 <= i <= |s| then s[i..] else [] }

  // ---- the plain stream ----

  /** The content of the file, the position, and the bytes pushed back in front of it. */
  datatype Plain = Plain(content: seq<Byte>, at: int, back: seq<Byte>)

  /** What there is to read. */
  function Avail(a: Plain): seq<Byte> { a.back + Drop(a.content, a.at + |a.back|) }

  /** After n bytes were read. */
  function Took(a: Plain, n: nat): Plain { Plain(a.content, a.at + n, if n <= |a.back| then a.back[n..] else []) }

  /** After c was pushed back. */
  function Pushed(a: Plain, c: Byte): Plain { Plain(a.content, a.at - 1, [c] + a.back) }

  /** After s was written, at the position or, in append mode, at the end. */
  function Put(a: Plain, app: bool, s: seq<Byte>): Plain {
    if s == [] then a.(back := [])
    else if app then Plain(a.content + s, |a.content| + |s|, [])
    else Plain(Overwrite(a.content, if a.at < 0 then 0 else a.at, s), a.at + |s|, [])
  }

  /** At another position, with nothing pushed back. */
  function Moved(a: Plain, at: int): Plain { Plain(a.content, at, []) }

  lemma PutTwice(a: Plain, app: bool, s: seq<Byte>, t: seq<Byte>)
    requires a.at >= 0
    ensures Put(Put(a, app, s), app, t) == Put(a, app, s + t)
  {
    hide Overwrite;
    if s == [] {
      assert s + t == t;
    } else if t == [] {
      assert s + t == s;
    } else if app {
      assert a.content + s + t == a.content + (s + t);
    } else {
      OverwriteTwice(a.content, a.at, s, t);
    }
  }

  lemma {:induction false} TookTwice(a: Plain, m: nat, n: nat)
    ensures Took(Took(a, m), n) == Took(a, m + n)
  {
  }

  /** Reading takes the front of what there is. */
  lemma TookAvail(a: Plain, n: nat)
    requires a.at + |a.back| >= 0 && n <= |Avail(a)|
    ensures Avail(Took(a, n)) == Avail(a)[n..]
  {
  }

  // ---- the buffered stream ----

  /** The file and its position, what was read ahead, what is to be written, what of the former was pushed
      back; whether the end was seen and whether lines are written through. */
  datatype View = View(data: seq<Byte>, pos: nat, unread: seq<Byte>, pending: seq<Byte>, back: seq<Byte>, eof: bool,
      lbf: bool, app: bool)

  /** Where the file takes what is written. */
  function WritePoint(v: View): nat { if v.app then |v.data| else v.pos }

  ghost predicate Inv(v: View) {
    && (v.unread == [] || v.pending == [])
    && v.back <= v.unread
    && (var ahead := v.unread[|v.back|..];
        ahead == [] || (|ahead| <= v.pos <= |v.data| && ahead == v.data[v.pos - |ahead|..v.pos]))
    && (v.eof ==> v.unread == [] && v.pos >= |v.data|)
    && (v.lbf ==> NEWLINE !in v.pending)
  }

  /** What a buffered stream stands for. */
  function Means(v: View): Plain {
    if v.pending != [] then Plain(Overwrite(v.data, WritePoint(v), v.pending), WritePoint(v) + |v.pending|, [])
    else Plain(v.data, v.pos - |v.unread|, v.back)
  }

  // ---- reading ----

  /** k bytes out of what was read ahead. */
  function Consumed(v: View, k: nat): View
    requires k <= |v.unread|
  {
    v.(unread := v.unread[k..], back := if k <= |v.back| then v.back[k..] else [])
  }

  lemma ConsumeStep(v: View, k: nat)
    requires Inv(v) && k <= |v.unread| && v.unread != []
    ensures Inv(Consumed(v, k)) && Means(Consumed(v, k)) == Took(Means(v), k)
    ensures v.unread <= Avail(Means(v))
  {
    var w := Consumed(v, k);
    var ahead := v.unread[|v.back|..];
    if k <= |v.back| {
      assert w.unread[|w.back|..] == ahead;
    } else {
      assert w.unread == ahead[k - |v.back|..] && w.unread[0..] == w.unread;
    }
    assert v.unread == v.back + ahead;
    if ahead != [] {
      assert Drop(v.data, v.pos - |ahead|) == ahead + v.data[v.pos..];
    }
  }

  /** More of the file into the empty buffer. */
  function Refilled(v: View, n: nat): View
    requires v.pos + n <= |v.data|
  {
    v.(pos := v.pos + n, unread := v.data[v.pos..v.pos + n], back := [])
  }

  lemma RefillStep(v: View, n: nat)
    requires Inv(v) && v.unread == [] && v.pending == [] && 0 < n && v.pos + n <= |v.data|
    ensures Inv(Refilled(v, n)) && Means(Refilled(v, n)) == Means(v)
  {
    var w := Refilled(v, n);
    assert w.unread[0..] == w.unread;
  }

  /** Straight out of the file, past the empty buffer. */
  lemma BypassStep(v: View, n: nat)
    requires Inv(v) && v.unread == [] && v.pending == [] && 0 < n && v.pos + n <= |v.data|
    ensures var w := v.(pos := v.pos + n);
            && Inv(w) && Means(w) == Took(Means(v), n)
            && v.data[v.pos..v.pos + n] <= Avail(Means(v))
  {
    assert v.data[v.pos..] == v.data[v.pos..v.pos + n] + v.data[v.pos + n..];
  }

  lemma PushStep(v: View, c: Byte)
    requires Inv(v) && v.pending == []
    ensures var w := v.(unread := [c] + v.unread, back := [c] + v.back, eof := false);
            Inv(w) && Means(w) == Pushed(Means(v), c)
  {
    var w := v.(unread := [c] + v.unread, back := [c] + v.back, eof := false);
    assert w.unread[|w.back|..] == v.unread[|v.back|..];
  }

  /** At the end there is nothing to read. */
  lemma EndStep(v: View)
    requires Inv(v) && v.unread == [] && v.pending == [] && v.pos >= |v.data|
    ensures Avail(Means(v)) == [] && Inv(v.(eof := true)) && Means(v.(eof := true)) == Means(v)
  {
  }

  // ---- writing ----

  /** After the file took all that was pending and s. */
  function Written(v: View, s: seq<Byte>): View {
    var all := v.pending + s;
    v.(data := Overwrite(v.data, WritePoint(v), all), pos := if all == [] then v.pos
        else WritePoint(v) + |all|, pending := [])
  }

  lemma WriteStep(v: View, s: seq<Byte>)
    requires Inv(v) && v.unread == []
    ensures Inv(Written(v, s)) && Means(Written(v, s)) == Put(Means(v), v.app, s)
  {
    hide Overwrite;
    var p, all := WritePoint(v), v.pending + s;
    Pieces(v, s);
    OverwriteNone(v.data, p);
    if all != [] { OverwriteAt(v.data, p, all, 0); }
    if s == [] { assert all == v.pending; }
    if v.pending == [] { assert all == s; }
  }

  /** What is pending and what comes behind it. */
  lemma Pieces(v: View, s: seq<Byte>)
    ensures var p := WritePoint(v);
            Overwrite(Overwrite(v.data, p, v.pending), p + |v.pending|, s) == Overwrite(v.data, p, v.pending + s)
    ensures v.app ==> Overwrite(v.data, WritePoint(v), v.pending) == v.data + v.pending
    ensures v.app ==> Overwrite(v.data, WritePoint(v), v.pending + s) == v.data + v.pending + s
  {
    hide Overwrite;
    OverwriteTwice(v.data, WritePoint(v), v.pending, s);
    if v.app {
      OverwriteEnd(v.data, v.pending);
      OverwriteEnd(v.data + v.pending, s);
    }
  }

  lemma StoreStep(v: View, s: seq<Byte>)
    requires Inv(v) && v.unread == [] && (v.lbf ==> NEWLINE !in s)
    ensures var w := v.(pending := v.pending + s); Inv(w) && Means(w) == Put(Means(v), v.app, s)
  {
    hide Overwrite;
    Pieces(v, s);
    OverwriteNone(v.data, WritePoint(v));
    if s == [] { assert v.pending + s == v.pending; }
    if v.pending == [] { assert v.pending + s == s; }
  }

  /** At another position of the file, with nothing read ahead. */
  lemma SeekStep(v: View, pos: nat)
    requires Inv(v) && v.pending == []
    ensures var w := v.(pos := pos, unread := [], back := [], eof := false); Inv(w) && Means(w) == Moved(Means(v), pos)
  {
  }

  /** The position is the file's before anything is written. */
  function Settled(v: View): Plain { Means(v.(unread := [], back := [])) }

  /** Flushing changes nothing that matters. */
  lemma FlushStep(v: View)
    requires Inv(v) && v.unread == []
    ensures Inv(Written(v, [])) && Means(Written(v, [])) == Means(v) && Written(v, []).unread == []
        && Written(v, []).pending == []
  {
    WriteStep(v, []);
  }

  lemma FlushNothing(v: View)
    requires v.pending == []
    ensures Written(v, []) == v
  {
    assert v.pending + [] == [];
  }

  // ---- what reading may return ----

  /** c is the next byte, or there is none. */
  predicate Got(a: Plain, c: int, a': Plain) {
    if c < 0 then c == -1 && Avail(a) == [] && a' == a else Avail(a) != [] && c == Avail(a)[0] && a' == Took(a, 1)
  }

  /** d is the front of what there is, all of it if there is no more than n. */
  predicate GotMany(a: Plain, n: nat, d: seq<Byte>, a': Plain) {
    d <= Avail(a) && |d| <= n && (|d| < n ==> d == Avail(a)) && a' == Took(a, |d|)
  }

  /** d is the next line: up to the first delim, or n bytes, or all there is. */
  predicate GotLine(a: Plain, delim: Byte, n: int, d: seq<Byte>, a': Plain) {
    && d <= Avail(a) && (n >= 0 ==> |d| <= n) && a' == Took(a, |d|)
    && (d != [] ==> delim !in d[..|d| - 1])
    && (d == [] || d[|d| - 1] != delim ==> |d| == n || d == Avail(a))
  }

  lemma NoShorter(a: Plain, delim: Byte, n: int, d: seq<Byte>, b: Plain, d': seq<Byte>, b': Plain)
    requires n != 0 && GotLine(a, delim, n, d, b) && GotLine(a, delim, n, d', b')
    ensures |d| >= |d'|
  {
    hide Avail, Took;
    assert |d| <= |d'| ==> d <= d';
    LastInside(d, d');
  }

  lemma LastInside(d: seq<Byte>, d': seq<Byte>)
    ensures d <= d' && d != [] && |d| < |d'| ==> d[|d| - 1] in d'[..|d'| - 1]
  {
    if d <= d' && d != [] && |d| < |d'| { assert d'[..|d'| - 1][|d| - 1] == d[|d| - 1]; }
  }

  /** Lines are determined by what there is to read. */
  lemma OneLine(a: Plain, delim: Byte, n: int, d: seq<Byte>, b: Plain, d': seq<Byte>, b': Plain)
    requires n != 0 && GotLine(a, delim, n, d, b) && GotLine(a, delim, n, d', b')
    ensures d == d' && b == b'
  {
    hide Avail, Took;
    NoShorter(a, delim, n, d, b, d', b'); NoShorter(a, delim, n, d', b', d, b);
  }

  // ---- what was delivered and what is pending ----

  /** Whatever is written goes to the end of the file. */
  predicate Appending(v: View) { v.app || v.pos == |v.data| }

  lemma StillAppending(v: View, s: seq<Byte>)
    ensures Appending(v) ==> Appending(Written(v, s))
  {
    var all := v.pending + s;
    if all != [] { OverwriteAt(v.data, WritePoint(v), all, 0); }
  }

  lemma DeliveredAndPending(v: View)
    requires Inv(v) && Appending(v)
    ensures Means(v).content == v.data + v.pending
  {
    OverwriteEnd(v.data, v.pending);
    if v.pending == [] { assert v.data + v.pending == v.data; }
  }
}
