/** The search filter over the active bundle: explanation entries are kept when their
    topic contains the search term, cases when their title or their stem does, both
    compared case-insensitively; every other part of the bundle passes through. */
module ContentFilter {
  import opened Types
  import Text

  /** `a` is `b` with some elements left out, the rest in their original order. */
  predicate IsSubsequence<T(==)>(a: seq<T>, b: seq<T>)
    decreases |b|
  {
    a == [] || (b != [] && ((a[0] == b[0] && IsSubsequence(a[1..], b[1..])) || IsSubsequence(a, b[1..])))
  }

  /** Array.prototype.filter. */
  function Filter<T(==,!new)>(xs: seq<T>, keep: T -> bool): (r: seq<T>)
    ensures forall x :: x in r <==> x in xs && keep(x)
    ensures IsSubsequence(r, xs)
  {
    if xs == [] then []
    else
      var rest := Filter(xs[1..], keep);
      assert forall x :: x in xs <==> x == xs[0] || x in xs[1..];
      if keep(xs[0]) then [xs[0]] + rest else rest
  }

  /** Each element kept occurs as often as in the input, each element dropped not at all;
      with IsSubsequence this determines the result completely. */
  lemma {:induction false} FilterMultiplicity<T(!new)>(xs: seq<T>, keep: T -> bool)
    ensures forall x :: multiset(Filter(xs, keep))[x] == if keep(x) then multiset(xs)[x] else 0
  {
    if xs != [] {
      FilterMultiplicity(xs[1..], keep);
      assert xs == [xs[0]] + xs[1..];
      assert multiset(xs) == multiset{xs[0]} + multiset(xs[1..]);
    }
  }

  /** A filter that every element passes returns its input. */
  lemma {:induction false} FilterKeepsAll<T(!new)>(xs: seq<T>, keep: T -> bool)
    requires forall i :: 0 <= i < |xs| ==> keep(xs[i])
    ensures Filter(xs, keep) == xs
  {
    if xs != [] {
      FilterKeepsAll(xs[1..], keep);
    }
  }

  /** Every element of a subsequence is an element of the whole. */
  lemma {:induction false} SubsequenceMembers<T>(a: seq<T>, b: seq<T>)
    requires IsSubsequence(a, b)
    ensures forall x :: x in a ==> x in b
    decreases |b|
  {
    if a != [] {
      if a[0] == b[0] && IsSubsequence(a[1..], b[1..]) {
        SubsequenceMembers(a[1..], b[1..]);
        assert forall x :: x in a ==> x == a[0] || x in a[1..];
      } else {
        SubsequenceMembers(a, b[1..]);
      }
    }
  }

  /** Leaving entries out cannot make two topics equal. */
  lemma {:induction false} SubsequenceKeepsTopicsDistinct(a: seq<ExplainItem>, b: seq<ExplainItem>)
    requires IsSubsequence(a, b) && DistinctTopics(b)
    ensures DistinctTopics(a)
    decreases |b|
  {
    if a != [] {
      assert DistinctTopics(b[1..]) by {
        forall i, j | 0 <= i < j < |b[1..]| ensures b[1..][i].topic != b[1..][j].topic {
          assert b[1..][i] == b[i + 1] && b[1..][j] == b[j + 1];
        }
      }
      if a[0] == b[0] && IsSubsequence(a[1..], b[1..]) {
        SubsequenceKeepsTopicsDistinct(a[1..], b[1..]);
        SubsequenceMembers(a[1..], b[1..]);
        forall i, j | 0 <= i < j < |a| ensures a[i].topic != a[j].topic {
          assert a[j] == a[1..][j - 1];
          if i == 0 {
            assert a[j] in b[1..];
            var k :| 0 <= k < |b[1..]| && b[1..][k] == a[j];
            assert b[k + 1] == a[j];
          } else {
            assert a[i] == a[1..][i - 1];
          }
        }
      } else {
        SubsequenceKeepsTopicsDistinct(a, b[1..]);
      }
    }
  }

  predicate TopicMatches(item: ExplainItem, needle: string) {
    Text.Contains(Text.Lower(item.topic), needle)
  }

  predicate CaseMatches(item: CaseItem, needle: string) {
    Text.Contains(Text.Lower(item.title), needle) || Text.Contains(Text.Lower(item.stem), needle)
  }

  /** The memoised `filteredModuleData` of the application shell. */
  function FilterModuleData(data: Option<SyllabusModule>, searchTerm: string): (r: Option<SyllabusModule>)
    ensures searchTerm == [] || data.None? ==> r == data
    ensures r.Some? <==> data.Some?
    ensures r.Some? ==> r.value.(explain := data.value.explain, cases := data.value.cases) == data.value
    ensures r.Some? && searchTerm != [] ==>
      && (forall e :: e in r.value.explain <==>
            e in data.value.explain && TopicMatches(e, Text.Lower(searchTerm)))
      && (forall c :: c in r.value.cases <==>
            c in data.value.cases && CaseMatches(c, Text.Lower(searchTerm)))
      && IsSubsequence(r.value.explain, data.value.explain)
      && IsSubsequence(r.value.cases, data.value.cases)
  {
    if searchTerm == [] || data.None? then data
    else
      var needle := Text.Lower(searchTerm);
      var m := data.value;
      Some(m.(explain := Filter(m.explain, e => TopicMatches(e, needle)),
              cases := Filter(m.cases, c => CaseMatches(c, needle))))
  }

  /** Filtering an already filtered bundle with the same term changes nothing. */
  lemma FilterIdempotent(data: Option<SyllabusModule>, searchTerm: string)
    ensures FilterModuleData(FilterModuleData(data, searchTerm), searchTerm) == FilterModuleData(data, searchTerm)
  {
    if searchTerm != [] && data.Some? {
      var needle := Text.Lower(searchTerm);
      var once := FilterModuleData(data, searchTerm).value;
      FilterKeepsAll(once.explain, e => TopicMatches(e, needle));
      FilterKeepsAll(once.cases, c => CaseMatches(c, needle));
    }
  }

  /** Only the lower-cased term matters. */
  lemma FilterSeesLowercaseOnly(data: Option<SyllabusModule>, searchTerm: string)
    ensures FilterModuleData(data, searchTerm) == FilterModuleData(data, Text.Lower(searchTerm))
  {
    Text.LowerIdempotent(searchTerm);
  }

  /** Filtering keeps the structural invariants of the bundle. */
  lemma FilterKeepsWellFormed(data: Option<SyllabusModule>, searchTerm: string)
    requires data.Some? && WellFormedBundle(data.value)
    ensures WellFormedBundle(FilterModuleData(data, searchTerm).value)
  {
    var r := FilterModuleData(data, searchTerm).value;
    if searchTerm != [] {
      SubsequenceKeepsTopicsDistinct(r.explain, data.value.explain);
    }
  }
}
