// The ordering of the kept glyphs: `std::sort(fontList.begin(), fontList.end())`
// (main.cpp line 343) with `font::operator<` comparing code points only
// (line 59). The model is a stable insertion sort on values; what it proves
// is what the source relies on: the result is ordered by code and is a
// permutation of the kept glyphs, and the codes in that order do not depend
// on how a sort places glyphs with equal codes.

module Order {
  import opened Base
  import Bdf

  type Glyph = Bdf.Glyph

  /** Ascending by code point, as `operator<` orders `font` records. */
  predicate SortedByCode(gs: seq<Glyph>)
  {
    forall i, j :: 0 <= i < j < |gs| ==> gs[i].code <= gs[j].code
  }

  /** g placed before the first glyph whose code is not below its own. */
  function Insert(g: Glyph, gs: seq<Glyph>): (r: seq<Glyph>)
    ensures |r| == |gs| + 1
    ensures r[0] == g || (gs != [] && r[0] == gs[0])
  {
    if gs == [] || g.code <= gs[0].code then [g] + gs
    else [gs[0]] + Insert(g, gs[1..])
  }

  /** The glyphs in ascending code order. */
  function SortByCode(gs: seq<Glyph>): (r: seq<Glyph>)
    ensures |r| == |gs|
  {
    if gs == [] then [] else Insert(gs[0], SortByCode(gs[1..]))
  }

  lemma {:induction false} InsertSorted(g: Glyph, gs: seq<Glyph>)
    requires SortedByCode(gs)
    ensures SortedByCode(Insert(g, gs))
  {
    if gs != [] && g.code > gs[0].code {
      var rest := Insert(g, gs[1..]);
      InsertSorted(g, gs[1..]);
      assert rest[0].code >= gs[0].code;
      ConsSorted(gs[0], rest);
    }
  }

  /** A sorted sequence stays sorted with a head no larger than its first element. */
  lemma ConsSorted(x: Glyph, s: seq<Glyph>)
    requires s != [] && SortedByCode(s) && x.code <= s[0].code
    ensures SortedByCode([x] + s)
  {
    var t := [x] + s;
    forall i, j | 0 <= i < j < |t|
      ensures t[i].code <= t[j].code
    {
      if i == 0 {
        assert t[j] == s[j - 1];
        assert s[0].code <= s[j - 1].code;
      } else {
        assert t[i] == s[i - 1] && t[j] == s[j - 1];
      }
    }
  }

  lemma {:induction false} InsertPermutes(g: Glyph, gs: seq<Glyph>)
    ensures multiset(Insert(g, gs)) == multiset(gs) + multiset{g}
  {
    if gs != [] && g.code > gs[0].code {
      InsertPermutes(g, gs[1..]);
      assert gs == [gs[0]] + gs[1..];
    }
  }

  /** The sort's result is ordered by code. */
  lemma {:induction false} SortSorted(gs: seq<Glyph>)
    ensures SortedByCode(SortByCode(gs))
  {
    if gs != [] {
      SortSorted(gs[1..]);
      InsertSorted(gs[0], SortByCode(gs[1..]));
    }
  }

  /** The sort's result holds the same glyphs, each as often as before. */
  lemma {:induction false} SortPermutes(gs: seq<Glyph>)
    ensures multiset(SortByCode(gs)) == multiset(gs)
  {
    if gs != [] {
      SortPermutes(gs[1..]);
      InsertPermutes(gs[0], SortByCode(gs[1..]));
      assert gs == [gs[0]] + gs[1..];
    }
  }

  /** Inserting g into s places it after the first k elements, those whose
      codes are below g's, and before the rest. */
  lemma {:induction false} InsertSplit(g: Glyph, s: seq<Glyph>, k: nat)
    requires k <= |s| && forall m :: 0 <= m < k ==> s[m].code < g.code
    requires k < |s| ==> g.code <= s[k].code
    ensures Insert(g, s) == s[..k] + [g] + s[k..]
    decreases k
  {
    if k > 0 {
      InsertSplit(g, s[1..], k - 1);
      assert s[..k] == [s[0]] + s[1..][..k - 1];
      assert s[k..] == s[1..][k - 1..];
    }
  }

  // ---- The sort as the source runs it, in place ----

  /** One insertion step in place: the glyph at index i moves right past the
      glyphs of the sorted tail whose codes are below its own. */
  method InsertInPlace(a: array<Glyph>, i: nat)
    requires i < a.Length
    modifies a
    ensures a[..i] == old(a[..i])
    ensures a[i..] == Insert(old(a[i]), old(a[i + 1..]))
  {
    ghost var s := a[i + 1..];
    var x := a[i];
    var j := i;
    while j + 1 < a.Length && a[j + 1].code < x.code
      invariant i <= j < a.Length
      invariant a[..i] == old(a[..i])
      invariant forall m :: i <= m < j ==> a[m] == s[m - i]
      invariant forall m :: j < m < a.Length ==> a[m] == s[m - i - 1]
      invariant forall m :: 0 <= m < j - i ==> s[m].code < x.code
    {
      a[j] := a[j + 1];
      j := j + 1;
    }
    a[j] := x;
    var k := j - i;
    assert a[i..] == s[..k] + [x] + s[k..];
    InsertSplit(x, s, k);
  }

  /** `std::sort(fontList.begin(), fontList.end())` on the vector's storage:
      the glyphs from the back are inserted one by one into the sorted tail. */
  method SortInPlace(a: array<Glyph>)
    modifies a
    ensures a[..] == SortByCode(old(a[..]))
  {
    ghost var orig := a[..];
    var i: nat := a.Length;
    while i > 0
      invariant i <= a.Length == |orig|
      invariant a[..i] == orig[..i]
      invariant a[i..] == SortByCode(orig[i..])
    {
      i := i - 1;
      assert a[i] == orig[i] by {
        assert a[..i + 1][i] == orig[..i + 1][i];
      }
      assert orig[i..][1..] == orig[i + 1..];
      InsertInPlace(a, i);
      assert a[..i] == orig[..i] by {
        assert orig[..i] == orig[..i + 1][..i];
      }
    }
    assert a[..] == a[0..] && orig == orig[0..];
  }

  // ---- The codes of a sorted permutation are determined ----

  /** The code column of a glyph sequence. */
  function Codes(gs: seq<Glyph>): (cs: seq<U32>)
  {
    seq(|gs|, i requires 0 <= i < |gs| => gs[i].code)
  }

  /** Equal multisets of glyphs have equal multisets of codes. */
  lemma {:induction false} CodesPermute(a: seq<Glyph>, b: seq<Glyph>)
    requires multiset(a) == multiset(b)
    ensures multiset(Codes(a)) == multiset(Codes(b))
    decreases |a|
  {
    if a != [] {
      assert a[0] in multiset(b) by {
        assert a[0] in multiset(a);
      }
      var k :| 0 <= k < |b| && b[k] == a[0];
      var b' := b[..k] + b[k + 1..];
      RemoveAt(a, b, k);
      CodesPermute(a[1..], b');
      CodesRemove(b, k);
      assert Codes(a) == [a[0].code] + Codes(a[1..]);
    } else {
      assert |b| == |multiset(b)| == 0;
    }
  }

  /** Taking the same glyph out of two equal multisets leaves equal multisets. */
  lemma RemoveAt<T>(a: seq<T>, b: seq<T>, k: nat)
    requires a != [] && k < |b| && b[k] == a[0] && multiset(a) == multiset(b)
    ensures multiset(a[1..]) == multiset(b[..k] + b[k + 1..])
  {
    assert a == [a[0]] + a[1..];
    assert multiset(a[1..]) == multiset(a) - multiset{a[0]};
    assert b == b[..k] + [b[k]] + b[k + 1..];
    assert multiset(b[..k] + b[k + 1..]) == multiset(b) - multiset{b[k]};
  }

  lemma CodesRemove(b: seq<Glyph>, k: nat)
    requires k < |b|
    ensures multiset(Codes(b)) == multiset(Codes(b[..k] + b[k + 1..])) + multiset{b[k].code}
  {
    var left, right := b[..k], b[k + 1..];
    var cl, cr := Codes(left), Codes(right);
    assert Codes(b) == cl + [b[k].code] + cr;
    assert Codes(left + right) == cl + cr;
  }

  predicate Ascending(cs: seq<U32>)
  {
    forall i, j :: 0 <= i < j < |cs| ==> cs[i] <= cs[j]
  }

  /** Two ascending sequences holding the same values are equal. */
  lemma {:induction false} AscendingUnique(a: seq<U32>, b: seq<U32>)
    requires Ascending(a) && Ascending(b) && multiset(a) == multiset(b)
    ensures a == b
    decreases |a|
  {
    if a == [] {
      assert |b| == |multiset(b)| == 0;
    } else {
      assert |b| == |multiset(b)| == |multiset(a)| == |a|;
      assert b[0] in multiset(a) && a[0] in multiset(b) by {
        assert a[0] in multiset(a) && b[0] in multiset(b);
      }
      var i :| 0 <= i < |a| && a[i] == b[0];
      var j :| 0 <= j < |b| && b[j] == a[0];
      assert a[0] <= a[i] && b[0] <= b[j];
      DropHead(a, b);
      AscendingUnique(a[1..], b[1..]);
    }
  }

  lemma DropHead<T>(a: seq<T>, b: seq<T>)
    requires a != [] && b != [] && a[0] == b[0] && multiset(a) == multiset(b)
    ensures multiset(a[1..]) == multiset(b[1..])
  {
    assert a == [a[0]] + a[1..];
    assert multiset(a[1..]) == multiset(a) - multiset{a[0]};
    assert b == [b[0]] + b[1..];
    assert multiset(b[1..]) == multiset(b) - multiset{b[0]};
  }

  /** Whatever order a sort leaves glyphs with equal codes in, the codes of
      its result are those of the stable sort modelled here. */
  lemma SortedCodesDetermined(gs: seq<Glyph>, other: seq<Glyph>)
    requires SortedByCode(other) && multiset(other) == multiset(gs)
    ensures Codes(other) == Codes(SortByCode(gs))
  {
    var s := SortByCode(gs);
    SortSorted(gs);
    SortPermutes(gs);
    CodesPermute(other, s);
    AscendingUnique(Codes(other), Codes(s));
  }
}
