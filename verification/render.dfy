/**
 Step 4 of `deidentify`: the accepted spans are sorted by start offset,
 largest first, and each is replaced in turn by its category's placeholder
 in a working copy of the text. Because the spans do not overlap, every span
 still to be processed lies wholly before the one just replaced, so its
 offsets into the working copy are still those into the original text.

 The placeholder table is a parameter `ph` here, as the method reads it from
 its object; `deidentify` passes `Spans.Placeholder`.
 */
module Render {
  import opened Spans

  /** Ordered by start offset, largest first. */
  predicate Descending(d: seq<Replacement>)
  {
    forall i, j :: 0 <= i < j < |d| ==> d[i].start >= d[j].start
  }

  /**
   Inserts `x` into a descending list in front of the spans with the same
   start, as a stable sort does for an element that came earlier.
   */
  function Insert(x: Replacement, d: seq<Replacement>): (r: seq<Replacement>)
    ensures multiset(r) == multiset(d) + multiset{x}
    ensures |r| == |d| + 1
  {
    if d == [] || d[0].start <= x.start then [x] + d
    else
      assert d == [d[0]] + d[1..];
      [d[0]] + Insert(x, d[1..])
  }

  /** Every element of the result of an insertion is the inserted span or one already there. */
  lemma {:induction false} InsertMembers(x: Replacement, d: seq<Replacement>)
    ensures forall k | 0 <= k < |Insert(x, d)| :: Insert(x, d)[k] == x || Insert(x, d)[k] in d
  {
    if d != [] && d[0].start > x.start {
      InsertMembers(x, d[1..]);
      assert forall y | y in d[1..] :: y in d;
    }
  }

  /** Insertion keeps a list in descending order of start. */
  lemma {:induction false} InsertDescending(x: Replacement, d: seq<Replacement>)
    requires Descending(d)
    ensures Descending(Insert(x, d))
  {
    if d != [] && d[0].start > x.start {
      InsertDescending(x, d[1..]);
      InsertMembers(x, d[1..]);
      var rest := Insert(x, d[1..]);
      var r := Insert(x, d);
      forall i, j | 0 <= i < j < |r| ensures r[i].start >= r[j].start {
        if i == 0 {
          assert r[j] == rest[j - 1];
          if r[j] != x {
            var k :| 0 <= k < |d[1..]| && d[1..][k] == r[j];
            assert d[k + 1] == r[j];
          }
        } else {
          assert r[i] == rest[i - 1] && r[j] == rest[j - 1];
        }
      }
    }
  }

  /** The stable sort of the replacement list by start offset, in reverse order. */
  function SortDesc(rs: seq<Replacement>): (d: seq<Replacement>)
    ensures multiset(d) == multiset(rs)
  {
    if rs == [] then []
    else
      assert rs == [rs[0]] + rs[1..];
      Insert(rs[0], SortDesc(rs[1..]))
  }

  /** The sorted list is in descending order of start. */
  lemma {:induction false} SortDescending(rs: seq<Replacement>)
    ensures Descending(SortDesc(rs))
  {
    if rs != [] {
      SortDescending(rs[1..]);
      InsertDescending(rs[0], SortDesc(rs[1..]));
    }
  }

  lemma {:induction false} InsertKeepsApart(x: Replacement, d: seq<Replacement>)
    requires PairwiseApart(d)
    requires forall y | y in d :: Apart(x, y)
    ensures PairwiseApart(Insert(x, d))
  {
    if d != [] && d[0].start > x.start {
      InsertKeepsApart(x, d[1..]);
      InsertMembers(x, d[1..]);
      var rest := Insert(x, d[1..]);
      var r := Insert(x, d);
      assert r == [d[0]] + rest;
      assert d[0] in d;
      forall i, j | 0 <= i < j < |r| ensures Apart(r[i], r[j]) {
        if i == 0 {
          assert r[j] == rest[j - 1];
          if r[j] != x {
            var k :| 0 <= k < |d[1..]| && d[1..][k] == r[j];
            assert d[k + 1] == r[j];
          }
        } else {
          assert r[i] == rest[i - 1] && r[j] == rest[j - 1];
        }
      }
    }
  }

  /** Sorting does not make two spans overlap. */
  lemma {:induction false} SortKeepsApart(rs: seq<Replacement>)
    requires PairwiseApart(rs)
    ensures PairwiseApart(SortDesc(rs))
  {
    if rs != [] {
      SortKeepsApart(rs[1..]);
      var d := SortDesc(rs[1..]);
      forall y | y in d ensures Apart(rs[0], y) {
        assert y in multiset(rs[1..]);
        var k :| 0 <= k < |rs[1..]| && rs[1..][k] == y;
        assert rs[k + 1] == y;
      }
      InsertKeepsApart(rs[0], d);
    }
  }

  /** Every later span ends no later than every earlier one starts. */
  predicate Chain(d: seq<Replacement>)
  {
    forall i, j :: 0 <= i < j < |d| ==> d[j].end <= d[i].start
  }

  /** Non-empty spans that are apart and sorted by descending start form a chain. */
  lemma DescendingApartIsChain(d: seq<Replacement>, n: int)
    requires Descending(d) && PairwiseApart(d) && AllWithin(d, n)
    ensures Chain(d)
  {
    forall i, j | 0 <= i < j < |d| ensures d[j].end <= d[i].start {
      assert Within(d[i], n) && Within(d[j], n);
    }
  }

  /** What the rendering loop needs: a chain of non-empty spans inside a text of length `n`. */
  predicate Renderable(d: seq<Replacement>, n: int)
  {
    Chain(d) && AllWithin(d, n)
  }

  lemma RenderableTail(d: seq<Replacement>, n: int)
    requires Renderable(d, n) && d != []
    ensures Within(d[0], n)
    ensures Renderable(d[1..], d[0].start)
  {
    assert d[0] in d;
    forall r | r in d[1..] ensures Within(r, d[0].start) {
      var k :| 0 <= k < |d[1..]| && d[1..][k] == r;
      assert d[k + 1] == r && r in d;
    }
  }

  /** One iteration of the loop: the span's characters give way to its placeholder. */
  function Splice(w: string, r: Replacement, ph: Category -> string): string
    requires 0 <= r.start <= r.end <= |w|
  {
    w[..r.start] + ph(r.kind) + w[r.end..]
  }

  /** The loop of step 4, over the spans in the order given, on a working copy `w`. */
  function ApplyAll(w: string, d: seq<Replacement>, ph: Category -> string): (out: string)
    requires Renderable(d, |w|)
    ensures |out| == |w| - Sum(d, SpanLength) + Sum(d, PlaceholderLength(ph))
    decreases |d|
  {
    if d == [] then w
    else
      RenderableTail(d, |w|);
      ApplyAll(Splice(w, d[0], ph), d[1..], ph)
  }

  /**
   The redacted text described without a working copy: the redacted text
   before the last span, that span's placeholder, then the text after it,
   untouched.
   */
  function Redacted(text: string, d: seq<Replacement>, ph: Category -> string): string
    requires Renderable(d, |text|)
    decreases |d|
  {
    if d == [] then text
    else
      RenderableTail(d, |text|);
      Redacted(text[..d[0].start], d[1..], ph) + ph(d[0].kind) + text[d[0].end..]
  }

  /** Text after every span is carried through the loop unchanged. */
  lemma {:induction false} ApplyAllAppend(p: string, q: string, d: seq<Replacement>, ph: Category -> string)
    requires Renderable(d, |p|)
    ensures Renderable(d, |p + q|)
    ensures ApplyAll(p + q, d, ph) == ApplyAll(p, d, ph) + q
    decreases |d|
  {
    if d != [] {
      RenderableTail(d, |p|);
      var r := d[0];
      assert Splice(p + q, r, ph) == Splice(p, r, ph) + q;
      ApplyAllAppend(Splice(p, r, ph), q, d[1..], ph);
    }
  }

  /** The in-place loop computes the redacted text. */
  lemma {:induction false} ApplyAllIsRedacted(w: string, d: seq<Replacement>, ph: Category -> string)
    requires Renderable(d, |w|)
    ensures ApplyAll(w, d, ph) == Redacted(w, d, ph)
    decreases |d|
  {
    if d != [] {
      RenderableTail(d, |w|);
      var r := d[0];
      assert Splice(w, r, ph) == w[..r.start] + (ph(r.kind) + w[r.end..]);
      ApplyAllAppend(w[..r.start], ph(r.kind) + w[r.end..], d[1..], ph);
      ApplyAllIsRedacted(w[..r.start], d[1..], ph);
    }
  }

  function Sum(rs: seq<Replacement>, f: Replacement -> int): int
  {
    if rs == [] then 0 else f(rs[0]) + Sum(rs[1..], f)
  }

  function SpanLength(r: Replacement): int
  {
    r.end - r.start
  }

  /** The length of the placeholder the table `ph` gives a span. */
  function PlaceholderLength(ph: Category -> string): Replacement -> int
  {
    (r: Replacement) => |ph(r.kind)|
  }

  /** How far a span moves the characters at and after `i`: by its change in length when it ends at or before `i`. */
  function ShiftBy(i: int, ph: Category -> string): Replacement -> int
  {
    (r: Replacement) => if r.end <= i then |ph(r.kind)| - SpanLength(r) else 0
  }

  /** How far the spans ending at or before `i` move the characters after them. */
  function Shift(d: seq<Replacement>, i: int, ph: Category -> string): int
  {
    Sum(d, ShiftBy(i, ph))
  }

  lemma {:induction false} SumInsert(x: Replacement, d: seq<Replacement>, f: Replacement -> int)
    ensures Sum(Insert(x, d), f) == f(x) + Sum(d, f)
  {
    if d != [] && d[0].start > x.start {
      SumInsert(x, d[1..], f);
      assert ([d[0]] + Insert(x, d[1..]))[1..] == Insert(x, d[1..]);
    }
  }

  /** A sum over the spans does not depend on the order in which they are sorted. */
  lemma {:induction false} SumSort(rs: seq<Replacement>, f: Replacement -> int)
    ensures Sum(SortDesc(rs), f) == Sum(rs, f)
  {
    if rs != [] {
      SumSort(rs[1..], f);
      SumInsert(rs[0], SortDesc(rs[1..]), f);
    }
  }

  /** The redacted text is the original, less every span, plus every placeholder. */
  lemma {:induction false} RedactedLength(text: string, d: seq<Replacement>, ph: Category -> string)
    requires Renderable(d, |text|)
    ensures |Redacted(text, d, ph)| == |text| - Sum(d, SpanLength) + Sum(d, PlaceholderLength(ph))
    decreases |d|
  {
    if d != [] {
      RenderableTail(d, |text|);
      RedactedLength(text[..d[0].start], d[1..], ph);
    }
  }

  /** Once every span ends at or before `i`, the shift at `i` is the whole change in length. */
  lemma {:induction false} ShiftPastAll(d: seq<Replacement>, i: int, ph: Category -> string)
    requires forall r | r in d :: r.end <= i
    ensures Shift(d, i, ph) == Sum(d, PlaceholderLength(ph)) - Sum(d, SpanLength)
  {
    if d != [] {
      assert d[0] in d;
      assert forall r | r in d[1..] :: r in d;
      ShiftPastAll(d[1..], i, ph);
    }
  }

  /** Position `i` lies in none of the spans. */
  predicate Uncovered(d: seq<Replacement>, i: int)
  {
    forall r | r in d :: !(r.start <= i < r.end)
  }

  /**
   A character outside every span survives, unchanged, at its original
   position moved by the spans that end before it.
   */
  lemma {:induction false} RedactedKeepsOutside(text: string, d: seq<Replacement>, i: int, ph: Category -> string)
    requires Renderable(d, |text|)
    requires 0 <= i < |text| && Uncovered(d, i)
    ensures 0 <= i + Shift(d, i, ph) < |Redacted(text, d, ph)|
    ensures Redacted(text, d, ph)[i + Shift(d, i, ph)] == text[i]
    decreases |d|
  {
    if d != [] {
      var s := d[0];
      var rest := d[1..];
      RenderableTail(d, |text|);
      var prefix := text[..s.start];
      var p := Redacted(prefix, rest, ph);
      RedactedLength(prefix, rest, ph);
      assert s in d;
      assert Redacted(text, d, ph) == p + ph(s.kind) + text[s.end..];
      assert Shift(d, i, ph) == ShiftBy(i, ph)(s) + Shift(rest, i, ph);
      if i < s.start {
        assert forall r | r in rest :: r in d;
        RedactedKeepsOutside(prefix, rest, i, ph);
        assert Shift(d, i, ph) == Shift(rest, i, ph);
      } else {
        assert s.end <= i;
        assert forall r | r in rest :: r.end <= i;
        ShiftPastAll(rest, i, ph);
        assert i + Shift(d, i, ph) == |p| + |ph(s.kind)| + (i - s.end);
      }
    }
  }

  /** Characters outside every span also keep their relative order. */
  lemma {:induction false} RedactedKeepsOrder(text: string, d: seq<Replacement>, i: int, j: int, ph: Category -> string)
    requires Renderable(d, |text|)
    requires 0 <= i < j < |text| && Uncovered(d, i) && Uncovered(d, j)
    ensures i + Shift(d, i, ph) < j + Shift(d, j, ph)
    decreases |d|
  {
    if d != [] {
      var s := d[0];
      var rest := d[1..];
      RenderableTail(d, |text|);
      var prefix := text[..s.start];
      RedactedLength(prefix, rest, ph);
      assert s in d;
      assert forall r | r in rest :: r in d;
      if j < s.start {
        RedactedKeepsOrder(prefix, rest, i, j, ph);
      } else if i < s.start {
        RedactedKeepsOutside(prefix, rest, i, ph);
        assert forall r | r in rest :: r.end <= j;
        ShiftPastAll(rest, j, ph);
      } else {
        assert forall r | r in rest :: r.end <= i;
        ShiftPastAll(rest, i, ph);
        ShiftPastAll(rest, j, ph);
      }
    }
  }

  /**
   Every span is replaced by its category's placeholder, found at the span's
   start moved by the spans before it: none of the span's own text remains there.
   */
  lemma {:induction false} RedactedShowsPlaceholder(text: string, d: seq<Replacement>, k: int, ph: Category -> string)
    requires Renderable(d, |text|)
    requires 0 <= k < |d|
    ensures var p := d[k].start + Shift(d, d[k].start, ph);
            && 0 <= p && p + |ph(d[k].kind)| <= |Redacted(text, d, ph)|
            && Redacted(text, d, ph)[p..p + |ph(d[k].kind)|] == ph(d[k].kind)
    decreases |d|
  {
    var s := d[0];
    var rest := d[1..];
    RenderableTail(d, |text|);
    var prefix := text[..s.start];
    var q := Redacted(prefix, rest, ph);
    RedactedLength(prefix, rest, ph);
    assert Redacted(text, d, ph) == q + ph(s.kind) + text[s.end..];
    assert s in d;
    if k == 0 {
      assert forall r | r in rest :: r.end <= s.start;
      ShiftPastAll(rest, s.start, ph);
    } else {
      assert d[k] == rest[k - 1] && d[k] in d;
      RedactedShowsPlaceholder(prefix, rest, k - 1, ph);
    }
  }

  /** Sorting leaves the shift of every position unchanged. */
  lemma ShiftSorted(rs: seq<Replacement>, i: int, ph: Category -> string)
    ensures Shift(SortDesc(rs), i, ph) == Shift(rs, i, ph)
  {
    SumSort(rs, ShiftBy(i, ph));
  }

  /**
   `RedactedKeepsOutside` for a reordering `d` of `rs`, with the shift
   computed over `rs`.
   */
  lemma PermutedKeepsOutside(text: string, rs: seq<Replacement>, d: seq<Replacement>, i: int, ph: Category -> string)
    requires Renderable(d, |text|) && multiset(d) == multiset(rs)
    requires Shift(d, i, ph) == Shift(rs, i, ph)
    requires 0 <= i < |text| && Uncovered(rs, i)
    ensures 0 <= i + Shift(rs, i, ph) < |Redacted(text, d, ph)|
    ensures Redacted(text, d, ph)[i + Shift(rs, i, ph)] == text[i]
  {
    assert forall x | x in d :: x in multiset(rs);
    RedactedKeepsOutside(text, d, i, ph);
  }

  /** `RedactedKeepsOrder` for a reordering `d` of `rs`, with the shifts computed over `rs`. */
  lemma PermutedKeepsOrder(text: string, rs: seq<Replacement>, d: seq<Replacement>, i: int, j: int, ph: Category -> string)
    requires Renderable(d, |text|) && multiset(d) == multiset(rs)
    requires Shift(d, i, ph) == Shift(rs, i, ph) && Shift(d, j, ph) == Shift(rs, j, ph)
    requires 0 <= i < j < |text| && Uncovered(rs, i) && Uncovered(rs, j)
    ensures i + Shift(rs, i, ph) < j + Shift(rs, j, ph)
  {
    assert forall x | x in d :: x in multiset(rs);
    RedactedKeepsOrder(text, d, i, j, ph);
  }

  /** `RedactedShowsPlaceholder` for a reordering `d` of `rs`, with the shift computed over `rs`. */
  lemma PermutedShowsPlaceholder(text: string, rs: seq<Replacement>, d: seq<Replacement>, x: Replacement, ph: Category -> string)
    requires Renderable(d, |text|) && multiset(d) == multiset(rs)
    requires Shift(d, x.start, ph) == Shift(rs, x.start, ph)
    requires x in rs
    ensures var p := x.start + Shift(rs, x.start, ph);
            && 0 <= p && p + |ph(x.kind)| <= |Redacted(text, d, ph)|
            && Redacted(text, d, ph)[p..p + |ph(x.kind)|] == ph(x.kind)
  {
    assert x in multiset(d);
    var k :| 0 <= k < |d| && d[k] == x;
    RedactedShowsPlaceholder(text, d, k, ph);
  }
}
