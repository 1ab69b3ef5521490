/**
 * parse_ids (app.py): the comma-separated ID list of the move tab,
 * stripped, upper-cased and de-duplicated in first-occurrence order.
 */
module IdList {
  import opened Text
  import opened Codec

  /** `part.strip().upper()` of every part. */
  function NormalizeAll(parts: seq<string>): (ns: seq<string>)
    ensures |ns| == |parts|
    ensures forall k | 0 <= k < |parts| :: ns[k] == Normalize(parts[k])
  {
    seq(|parts|, k requires 0 <= k < |parts| => Normalize(parts[k]))
  }

  /** What the loop keeps: a non-empty part not seen before is appended. */
  function Dedup(ns: seq<string>): (ids: seq<string>)
    ensures |ids| <= |ns|
  {
    if ns == [] then []
    else
      var prev := Dedup(ns[..|ns| - 1]);
      var p := ns[|ns| - 1];
      if p != [] && p !in prev then prev + [p] else prev
  }

  /** The positions whose value is non-empty and does not occur earlier, in order. */
  function FirstOccurrences(ns: seq<string>): seq<string>
  {
    if ns == [] then []
    else
      var init := ns[..|ns| - 1];
      var p := ns[|ns| - 1];
      FirstOccurrences(init) + (if p != [] && p !in init then [p] else [])
  }

  /** The kept IDs are exactly the non-empty parts. */
  lemma {:induction false} DedupMembers(ns: seq<string>)
    ensures forall x :: x in Dedup(ns) <==> x != [] && x in ns
  {
    if ns != [] {
      var init := ns[..|ns| - 1];
      DedupMembers(init);
      assert ns == init + [ns[|ns| - 1]];
    }
  }

  /** No ID is kept twice. */
  lemma {:induction false} DedupNoDuplicates(ns: seq<string>)
    ensures forall a, b | 0 <= a < b < |Dedup(ns)| :: Dedup(ns)[a] != Dedup(ns)[b]
  {
    if ns != [] {
      DedupNoDuplicates(ns[..|ns| - 1]);
    }
  }

  /** The kept IDs are the first occurrences, in the order they occur. */
  lemma {:induction false} DedupIsFirstOccurrences(ns: seq<string>)
    ensures Dedup(ns) == FirstOccurrences(ns)
  {
    if ns != [] {
      var init := ns[..|ns| - 1];
      DedupIsFirstOccurrences(init);
      DedupMembers(init);
    }
  }

  /** parse_ids */
  method ParseIds(s: string) returns (ids: seq<string>)
    ensures ids == Dedup(NormalizeAll(Split(s, ',')))
    ensures forall x :: x in ids <==> x != [] && x in NormalizeAll(Split(s, ','))
    ensures forall a, b | 0 <= a < b < |ids| :: ids[a] != ids[b]
  {
    var parts := Split(s, ',');
    var ns := NormalizeAll(parts);
    DedupMembers(ns);
    DedupNoDuplicates(ns);
    if s == [] {
      assert parts == [[]];
      assert Normalize([]) == [];
      assert ns == [[]];
      assert Dedup(ns) == Dedup(ns[..0]);
      return [];
    }
    var seen: set<string> := {};
    ids := [];
    for i := 0 to |parts|
      invariant ids == Dedup(ns[..i])
      invariant seen == set x | x in ids
    {
      var p := Normalize(parts[i]);
      assert p == ns[i];
      ghost var upto := ns[..i + 1];
      assert upto[..|upto| - 1] == ns[..i] && upto[|upto| - 1] == p;
      assert p in seen <==> p in ids;
      if p != [] && p !in seen {
        seen := seen + {p};
        ids := ids + [p];
      }
    }
    assert ns[..|parts|] == ns;
  }
}
