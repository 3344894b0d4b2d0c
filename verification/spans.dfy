/** The Option datatype used for the age pre-pass, which finds at most one match. */
module Wrappers {

  datatype Option<+T> = None | Some(value: T)
}

/**
 The vocabulary shared by every stage of the redaction pipeline: the ten PHI
 categories, their fixed placeholders, the order in which the structured
 patterns are tried, and the accepted replacement spans with the overlap test
 that arbitrates between them.
 */
module Spans {

  /** The keys of the placeholder table; each one is also a bucket of the result. */
  datatype Category = Name | Date | Email | PhoneNo | SSN | MRN | Accession | Age | Address | Doctor

  const AllCategories: set<Category> :=
    {Name, Date, Email, PhoneNo, SSN, MRN, Accession, Age, Address, Doctor}

  /** The order in which the structured patterns are run (the pattern table's insertion order). */
  const PatternOrder: seq<Category> := [SSN, MRN, Accession, Email, PhoneNo, Date, Address, Doctor]

  /** Half-width of the context window used to tell a clinician from a patient. */
  const ContextRadius: int := 25

  /** The key of the category in the placeholder table and among the result's buckets. */
  function Key(c: Category): string
  {
    match c
    case Name => "Name"
    case Date => "Date"
    case Email => "Email"
    case PhoneNo => "PhoneNo"
    case SSN => "SSN"
    case MRN => "MRN"
    case Accession => "Accession"
    case Age => "Age"
    case Address => "Address"
    case Doctor => "Doctor"
  }

  /** The fixed text that replaces a span of the given category: its key, tagged as redacted. */
  function Placeholder(c: Category): (p: string)
    ensures p == "[Deid: " + Key(c) + "]"
  {
    match c
    case Name => "[Deid: Name]"
    case Date => "[Deid: Date]"
    case Email => "[Deid: Email]"
    case PhoneNo => "[Deid: PhoneNo]"
    case SSN => "[Deid: SSN]"
    case MRN => "[Deid: MRN]"
    case Accession => "[Deid: Accession]"
    case Age => "[Deid: Age]"
    case Address => "[Deid: Address]"
    case Doctor => "[Deid: Doctor]"
  }

  /** Every category has its own placeholder, so the placeholder in the report names the category. */
  lemma PlaceholdersDistinct(a: Category, b: Category)
    ensures Placeholder(a) == Placeholder(b) <==> a == b
  {
  }

  /** Every category of the closed enumeration is a key of the placeholder table. */
  lemma CategoriesAreKeys(c: Category)
    ensures c in AllCategories
    ensures c !in PatternOrder <==> c == Name || c == Age
  {
  }

  /**
   An accepted span `[start, end)` of the original text, the category whose
   placeholder replaces it, and the value recorded in that category's bucket.
   */
  datatype Replacement = Replacement(start: int, end: int, kind: Category, value: string)

  /**
   The overlap test `deidentify` applies between a candidate `[start, end)`
   and an accepted span (deid_service.py:60, 74).
   */
  predicate Overlaps(start: int, end: int, r: Replacement)
  {
    start < r.end && end > r.start
  }

  /** True iff the candidate overlaps some already accepted span. */
  predicate OverlapsAny(start: int, end: int, rs: seq<Replacement>)
  {
    exists r | r in rs :: Overlaps(start, end, r)
  }

  /** Two spans are apart when one ends no later than the other starts. */
  predicate Apart(a: Replacement, b: Replacement)
  {
    a.end <= b.start || b.end <= a.start
  }

  /** No two spans of the sequence overlap. */
  predicate PairwiseApart(rs: seq<Replacement>)
  {
    forall i, j :: 0 <= i < j < |rs| ==> Apart(rs[i], rs[j])
  }

  /** `[start, end)` is a non-empty span inside a text of length `n`. */
  predicate InText(start: int, end: int, n: int)
  {
    0 <= start < end <= n
  }

  /** The replacement covers a non-empty span inside a text of length `n`. */
  predicate Within(r: Replacement, n: int)
  {
    InText(r.start, r.end, n)
  }

  predicate AllWithin(rs: seq<Replacement>, n: int)
  {
    forall r | r in rs :: Within(r, n)
  }

  /** Appending a candidate that overlaps none of the spans keeps them pairwise apart. */
  lemma AppendKeepsApart(rs: seq<Replacement>, x: Replacement)
    requires PairwiseApart(rs)
    requires !OverlapsAny(x.start, x.end, rs)
    ensures PairwiseApart(rs + [x])
  {
    var o := rs + [x];
    forall i, j | 0 <= i < j < |o| ensures Apart(o[i], o[j]) {
      if j == |rs| {
        assert o[i] in rs;
      }
    }
  }
}
