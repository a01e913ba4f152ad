// The text helpers of main.cpp: `std::string::find` for one byte, `cut`
// (the next newline-terminated line), `cmp` (keyword prefix match) and
// `split` (pieces between separators).

module Text {
  import opened Base

  const NEWLINE: Byte := 0x0A
  const SPACE: Byte := 0x20

  /** The bytes of an ASCII string literal. */
  function Ascii(s: string): (r: seq<Byte>)
    requires forall i :: 0 <= i < |s| ==> s[i] < 128 as char
    ensures |r| == |s|
  {
    seq(|s|, i requires 0 <= i < |s| => s[i] as int)
  }

  /** `n.find(b, pos)`: the first index at or after pos that holds b, if any. */
  function Find(n: seq<Byte>, b: Byte, pos: nat): (r: Option<nat>)
    ensures r.Some? ==> pos <= r.value < |n| && n[r.value] == b
    ensures r.Some? ==> forall i :: pos <= i < r.value ==> n[i] != b
    ensures r.None? ==> forall i :: pos <= i < |n| ==> n[i] != b
    decreases |n| - pos
  {
    if pos >= |n| then None
    else if n[pos] == b then Some(pos)
    else Find(n, b, pos + 1)
  }

  /** Searching from pos in n is searching from 0 in n[pos..], shifted. */
  lemma FindShift(n: seq<Byte>, b: Byte, pos: nat)
    requires pos <= |n|
    ensures Find(n, b, pos).None? <==> Find(n[pos..], b, 0).None?
    ensures Find(n, b, pos).Some? ==> Find(n, b, pos).value == pos + Find(n[pos..], b, 0).value
  {
    var r, s := Find(n, b, pos), Find(n[pos..], b, 0);
    if r.Some? {
      assert n[pos..][r.value - pos] == b;
    }
    if s.Some? {
      assert n[pos + s.value] == b;
    }
  }

  /** `cut(n, pos, ret)`: the index of the next newline at or after pos, and
      the line from pos up to it; npos and the empty line when there is none,
      so a last line without a trailing newline is never returned. */
  function Cut(n: seq<Byte>, pos: nat): (r: (Option<nat>, seq<Byte>))
    ensures r.0.Some? ==> pos <= r.0.value < |n| && n[r.0.value] == NEWLINE
    ensures r.0.Some? ==> r.1 == n[pos..r.0.value] && NEWLINE !in r.1
    ensures r.0.None? ==> r.1 == [] && forall i :: pos <= i < |n| ==> n[i] != NEWLINE
  {
    var p := Find(n, NEWLINE, pos);
    (p, if p.Some? then n[pos..p.value] else [])
  }

  /** n begins with the keyword s. */
  predicate HasPrefix(n: seq<Byte>, s: seq<Byte>)
  {
    |s| <= |n| && n[..|s|] == s
  }

  /** `cmp(n, s, arg)`: whether n begins with s; if so arg is the rest of n,
      otherwise arg is emptied. */
  method Cmp(n: seq<Byte>, s: seq<Byte>) returns (ok: bool, arg: seq<Byte>)
    ensures ok <==> HasPrefix(n, s)
    ensures ok ==> arg == n[|s|..] && n == s + arg
    ensures !ok ==> arg == []
  {
    var l := |s|;
    if |n| < l {
      arg := [];
      return false, arg;
    }
    for i := 0 to l
      invariant forall j :: 0 <= j < i ==> n[j] == s[j]
    {
      if n[i] != s[i] {
        arg := [];
        return false, arg;
      }
    }
    arg := n[l..];
    assert n[..l] == s;
    assert n == n[..l] + n[l..];
    return true, arg;
  }

  /** `split(n, sep)`: the pieces of n between occurrences of sep, in order;
      always at least one piece. */
  function Fields(n: seq<Byte>, sep: Byte): (r: seq<seq<Byte>>)
    ensures |r| >= 1
    decreases |n|
  {
    match Find(n, sep, 0)
    case None => [n]
    case Some(p) => [n[..p]] + Fields(n[p + 1..], sep)
  }

  /** The pieces joined back with the separator. */
  function Join(pieces: seq<seq<Byte>>, sep: Byte): seq<Byte>
    requires |pieces| >= 1
  {
    if |pieces| == 1 then pieces[0] else pieces[0] + [sep] + Join(pieces[1..], sep)
  }

  /** Splitting loses nothing: joining the pieces with the separator restores
      the string, and no piece contains the separator. */
  lemma {:induction false} FieldsJoin(n: seq<Byte>, sep: Byte)
    ensures Join(Fields(n, sep), sep) == n
    ensures forall k :: 0 <= k < |Fields(n, sep)| ==> sep !in Fields(n, sep)[k]
    decreases |n|
  {
    match Find(n, sep, 0)
    case None =>
    case Some(p) =>
      var rest := Fields(n[p + 1..], sep);
      FieldsJoin(n[p + 1..], sep);
      assert Fields(n, sep) == [n[..p]] + rest;
      assert ([n[..p]] + rest)[1..] == rest;
      assert n == n[..p] + [sep] + n[p + 1..];
      forall k | 0 <= k < |Fields(n, sep)|
        ensures sep !in Fields(n, sep)[k]
      {
        if k > 0 {
          assert Fields(n, sep)[k] == rest[k - 1];
        }
      }
  }

  /** There is one more piece than there are separators. */
  lemma {:induction false} FieldsCount(n: seq<Byte>, sep: Byte)
    ensures |Fields(n, sep)| == multiset(n)[sep] + 1
    decreases |n|
  {
    match Find(n, sep, 0)
    case None =>
      assert sep !in multiset(n);
    case Some(p) =>
      FieldsCount(n[p + 1..], sep);
      assert n == n[..p] + [sep] + n[p + 1..];
      assert sep !in multiset(n[..p]);
  }

  lemma FieldsUnfold(m: seq<Byte>, sep: Byte, k: nat)
    requires Find(m, sep, 0) == Some(k)
    ensures Fields(m, sep) == [m[..k]] + Fields(m[k + 1..], sep)
  {
  }

  /** The unconsumed suffix n[pos..] of `split`'s loop, when its next
      separator is at q. */
  lemma FieldsAt(n: seq<Byte>, sep: Byte, pos: nat, q: nat)
    requires pos <= |n| && Find(n, sep, pos) == Some(q)
    ensures Fields(n[pos..], sep) == [n[pos..q]] + Fields(n[q + 1..], sep)
  {
    var m, k := n[pos..], q - pos;
    FindShift(n, sep, pos);
    FieldsUnfold(m, sep, k);
    assert m[k + 1..] == n[q + 1..];
    assert m[..k] == n[pos..q];
  }

  /** `split`'s loop invariant survives a cut at the separator q. */
  lemma FieldsCut(n: seq<Byte>, sep: Byte, pos: nat, q: nat, l: seq<seq<Byte>>)
    requires pos <= |n| && Find(n, sep, pos) == Some(q)
    requires l + Fields(n[pos..], sep) == Fields(n, sep)
    ensures q + 1 <= |n|
    ensures (l + [n[pos..q]]) + Fields(n[q + 1..], sep) == Fields(n, sep)
  {
    FieldsAt(n, sep, pos, q);
    AppendPiece(l, Fields(n[pos..], sep), n[pos..q], Fields(n[q + 1..], sep), Fields(n, sep));
  }

  /** Moving the first piece of x onto the end of a keeps a + x whole. */
  lemma AppendPiece<T>(a: seq<T>, x: seq<T>, b: T, c: seq<T>, whole: seq<T>)
    requires a + x == whole && x == [b] + c
    ensures (a + [b]) + c == whole
  {
  }

  /** With no separator left, the rest of n is the last piece. */
  lemma FieldsRest(n: seq<Byte>, sep: Byte, pos: nat, l: seq<seq<Byte>>)
    requires pos <= |n| && Find(n, sep, pos).None?
    requires l + Fields(n[pos..], sep) == Fields(n, sep)
    ensures l + [n[pos..]] == Fields(n, sep)
  {
    FindShift(n, sep, pos);
  }

  /** `split` as the source writes it: a loop over `pos` that cuts at each
      separator, then takes what is left after the last one. */
  method Split(n: seq<Byte>, s: Byte) returns (l: seq<seq<Byte>>)
    ensures l == Fields(n, s)
  {
    l := [];
    var pos := 0;
    var p := Find(n, s, pos);
    while p.Some?
      invariant pos <= |n| && p == Find(n, s, pos)
      invariant l + Fields(n[pos..], s) == Fields(n, s)
      decreases |n| - pos
    {
      var q := p.value;
      FieldsCut(n, s, pos, q, l);
      l, pos := l + [n[pos..q]], q + 1;
      p := Find(n, s, pos);
    }
    FieldsRest(n, s, pos, l);
    l := l + [n[pos..]];
  }
}
