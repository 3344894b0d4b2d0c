/**
 The per-category collections of redacted values: the values that accepted
 spans contribute to a category, and the deduplication applied to every
 bucket once all spans are accepted.
 */
module Buckets {
  import opened Spans

  /** A bucket map holds every category of the placeholder table as a key. */
  predicate Complete(m: map<Category, seq<string>>)
  {
    forall c: Category :: c in m
  }

  /** One empty bucket per category, as the result dictionary starts out. */
  function EmptyBuckets(): (m: map<Category, seq<string>>)
    ensures Complete(m)
    ensures forall c :: m[c] == []
  {
    forall c: Category ensures c in AllCategories {
      CategoriesAreKeys(c);
    }
    map c | c in AllCategories :: []
  }

  /** The values of the spans of category `c`, in the order the spans were accepted. */
  function ValuesOf(rs: seq<Replacement>, c: Category): seq<string>
  {
    if rs == [] then []
    else
      var last := rs[|rs| - 1];
      ValuesOf(rs[..|rs| - 1], c) + (if last.kind == c then [last.value] else [])
  }

  lemma ValuesOfAppend(rs: seq<Replacement>, r: Replacement, c: Category)
    ensures ValuesOf(rs + [r], c) == ValuesOf(rs, c) + (if r.kind == c then [r.value] else [])
  {
    assert (rs + [r])[..|rs|] == rs;
  }

  /** A value is in the bucket of `c` iff some span of category `c` recorded it. */
  lemma {:induction false} ValuesOfMembers(rs: seq<Replacement>, c: Category, v: string)
    ensures v in ValuesOf(rs, c) <==> exists r | r in rs :: r.kind == c && r.value == v
  {
    if rs != [] {
      var init := rs[..|rs| - 1];
      ValuesOfMembers(init, c, v);
      assert rs == init + [rs[|rs| - 1]];
      if exists r | r in rs :: r.kind == c && r.value == v {
        var r :| r in rs && r.kind == c && r.value == v;
        if r != rs[|rs| - 1] {
          assert r in init;
        }
      }
    }
  }

  /** A category that no span carries has an empty bucket. */
  lemma {:induction false} ValuesOfAbsent(rs: seq<Replacement>, c: Category)
    requires forall i | 0 <= i < |rs| :: rs[i].kind != c
    ensures ValuesOf(rs, c) == []
  {
    if rs != [] {
      ValuesOfAbsent(rs[..|rs| - 1], c);
    }
  }

  /** Only the first span carries category `c`: its value is the whole bucket. */
  lemma {:induction false} ValuesOfOnlyFirst(rs: seq<Replacement>, c: Category)
    requires |rs| > 0 && rs[0].kind == c
    requires forall i | 0 < i < |rs| :: rs[i].kind != c
    ensures ValuesOf(rs, c) == [rs[0].value]
  {
    if |rs| > 1 {
      ValuesOfOnlyFirst(rs[..|rs| - 1], c);
    }
  }

  predicate NoDuplicates(s: seq<string>)
  {
    forall i, j :: 0 <= i < j < |s| ==> s[i] != s[j]
  }

  /**
   Collapses repeated values, keeping the first occurrence of each. The order
   of a deduplicated bucket carries no meaning, so any other choice of
   representative order would do as well.
   */
  function Dedup(s: seq<string>): (r: seq<string>)
    ensures NoDuplicates(r)
    ensures forall x :: x in r <==> x in s
    ensures |r| <= |s|
  {
    if s == [] then []
    else
      var init := s[..|s| - 1];
      var last := s[|s| - 1];
      if last in init then Dedup(init) else Dedup(init) + [last]
  }

  /**
   A bucket that already holds no duplicates keeps exactly its values, each
   once: deduplication changes at most their order.
   */
  lemma {:induction false} DedupOfDistinct(s: seq<string>)
    requires NoDuplicates(s)
    ensures multiset(Dedup(s)) == multiset(s)
  {
    if s != [] {
      var init := s[..|s| - 1];
      var last := s[|s| - 1];
      assert NoDuplicates(init);
      DedupOfDistinct(init);
      assert s == init + [last];
      assert last !in init by {
        forall k | 0 <= k < |init| ensures init[k] != last {
          assert init[k] == s[k];
        }
      }
    }
  }

  /** A bucket of one value is that value alone. */
  lemma DedupSingle(v: string)
    ensures Dedup([v]) == [v]
  {
    assert [v][..0] == [];
  }

  /** Deduplicates every bucket, keeping the keys. */
  function Finalize(m: map<Category, seq<string>>): (f: map<Category, seq<string>>)
    ensures f.Keys == m.Keys
    ensures forall c | c in f :: NoDuplicates(f[c])
    ensures forall c, v | c in f :: v in f[c] <==> v in m[c]
  {
    map c | c in m :: Dedup(m[c])
  }
}
