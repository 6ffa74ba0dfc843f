/** Id lists (database keys are integers) seen as the arguments handed to batch existence queries. */
module Collections {

  /** The distinct elements of `s`. */
  function Elements(s: seq<int>): set<int>
  {
    set x | x in s
  }

  /** Some element of a non-empty set: the next id a loop over a set of ids visits. */
  method Pick(s: set<int>) returns (x: int)
    requires |s| > 0
    ensures x in s
  {
    assert (forall y :: y !in s) ==> s == {};
    x :| x in s;
  }

  /** No element of `s` occurs twice. */
  predicate Distinct(s: seq<int>)
  {
    forall i, j :: 0 <= i < j < |s| ==> s[i] != s[j]
  }

  /** The number a batch existence query (`count ... where id in (s)`, or the size of the
      list `find ... where id in (s)` returns) reports, counted one id at a time: an id counts
      when it is known and does not occur again later. It is the number of distinct ids of
      `s` found in `known`; it never exceeds the number of ids asked for, and reaches it
      exactly when the ids are pairwise distinct and all known. */
  function CountIn(s: seq<int>, known: set<int>): (r: nat)
    ensures r == |Elements(s) * known|
    ensures r <= |s|
    ensures r == |s| <==> Distinct(s) && forall x :: x in s ==> x in known
    decreases |s|
  {
    if s == [] then
      assert Elements(s) == {};
      0
    else
      var rest := CountIn(s[1..], known);
      CountInCons(s, known);
      DistinctCons(s);
      assert forall x :: x in s <==> x == s[0] || x in s[1..];
      (if s[0] in known && s[0] !in s[1..] then 1 else 0) + rest
  }

  /** Distinctness of a non-empty sequence splits into its head and its tail. */
  lemma DistinctCons(s: seq<int>)
    requires s != []
    ensures Distinct(s) <==> s[0] !in s[1..] && Distinct(s[1..])
  {
  }

  /** One step of the count: the head adds one distinct known id exactly when it is known
      and not repeated later. */
  lemma CountInCons(s: seq<int>, known: set<int>)
    requires s != []
    ensures s[0] in known && s[0] !in s[1..] ==> |Elements(s) * known| == 1 + |Elements(s[1..]) * known|
    ensures !(s[0] in known && s[0] !in s[1..]) ==> |Elements(s) * known| == |Elements(s[1..]) * known|
  {
    var x, t := s[0], s[1..];
    assert forall y :: y in s <==> y == x || y in t;
    assert Elements(s) == {x} + Elements(t);
    if x in known && x !in t {
      assert Elements(s) * known == {x} + Elements(t) * known;
    } else {
      assert Elements(s) * known == Elements(t) * known;
    }
  }
}
