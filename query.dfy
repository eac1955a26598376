/**
 * The query-parameter list `searchProperties` builds from a filter, as a
 * specification: walk the entries in order, drop the empty ones, send the
 * rest as `(key, String(value))`, then add `page=1` when no `page` was sent.
 */
module Query {

  import opened Params
  import Decimal

  /** A name/value pair of a `URLSearchParams` list. */
  type Pair = (string, string)

  /** What one entry contributes: nothing when its value is empty, else its stringified pair. */
  function Emitted(e: Entry): (r: seq<Pair>)
    ensures |r| <= 1
  {
    if IsEmptyValue(e.value) then [] else [(e.key, Stringify(e.value))]
  }

  /** The pairs the filtering loop appends, in entry order. */
  function Kept(entries: seq<Entry>): (r: seq<Pair>)
    ensures |r| <= |entries|
    ensures forall j :: 0 <= j < |r| ==> r[j].1 != ""
    decreases |entries|
  {
    if entries == [] then [] else Kept(entries[..|entries| - 1]) + Emitted(entries[|entries| - 1])
  }

  /** `URLSearchParams.has(k)`. */
  predicate HasKey(pairs: seq<Pair>, k: string) {
    exists j :: 0 <= j < |pairs| && pairs[j].0 == k
  }

  /** How many pairs carry the name `k`. */
  function KeyCount(pairs: seq<Pair>, k: string): nat
    decreases |pairs|
  {
    if pairs == [] then 0
    else KeyCount(pairs[..|pairs| - 1], k) + (if pairs[|pairs| - 1].0 == k then 1 else 0)
  }

  predicate DistinctKeys(pairs: seq<Pair>) {
    forall i, j :: 0 <= i < j < |pairs| ==> pairs[i].0 != pairs[j].0
  }

  /** The complete list: the kept pairs, then `("page", "1")` if no `page` pair is among them. */
  function QueryPairs(entries: seq<Entry>): (r: seq<Pair>)
    ensures |r| > 0 && HasKey(r, PageKey)
    ensures |Kept(entries)| <= |r| <= |Kept(entries)| + 1 && r[..|Kept(entries)|] == Kept(entries)
    ensures forall j :: 0 <= j < |r| ==> r[j].1 != ""
  {
    var kept := Kept(entries);
    if HasKey(kept, PageKey) then kept
    else
      assert (kept + [(PageKey, DefaultPage)])[|kept|].0 == PageKey;
      kept + [(PageKey, DefaultPage)]
  }

  // ---------------------------------------------------------------------------
  // Filtering: order, soundness and completeness

  lemma KeptStep(entries: seq<Entry>, i: nat)
    requires i < |entries|
    ensures Kept(entries[..i + 1]) == Kept(entries[..i]) + Emitted(entries[i])
  {
    assert entries[..i + 1][..i] == entries[..i];
  }

  /** Filtering distributes over concatenation: it keeps the order of the entries. */
  lemma {:induction false} KeptAppend(a: seq<Entry>, b: seq<Entry>)
    ensures Kept(a + b) == Kept(a) + Kept(b)
    decreases |b|
  {
    if b == [] {
      assert a + b == a;
    } else {
      var b' := b[..|b| - 1];
      assert (a + b)[..|a + b| - 1] == a + b';
      assert (a + b)[|a + b| - 1] == b[|b| - 1];
      KeptAppend(a, b');
    }
  }

  /** A kept entry lands right after the pairs kept from the entries before it. */
  lemma KeptPosition(entries: seq<Entry>, i: nat)
    requires i < |entries| && !IsEmptyValue(entries[i].value)
    ensures |Kept(entries[..i])| < |Kept(entries)|
    ensures Kept(entries)[|Kept(entries[..i])|] == (entries[i].key, Stringify(entries[i].value))
  {
    assert entries == entries[..i + 1] + entries[i + 1..];
    KeptAppend(entries[..i + 1], entries[i + 1..]);
    KeptStep(entries, i);
  }

  /** Every kept pair comes from a non-empty entry, and its position counts the kept entries before that one. */
  lemma {:induction false} KeptOrigin(entries: seq<Entry>, j: nat) returns (i: nat)
    requires j < |Kept(entries)|
    ensures i < |entries| && !IsEmptyValue(entries[i].value)
    ensures j == |Kept(entries[..i])|
    ensures Kept(entries)[j] == (entries[i].key, Stringify(entries[i].value))
    decreases |entries|
  {
    var n := |entries| - 1;
    var init := entries[..n];
    assert Kept(entries) == Kept(init) + Emitted(entries[n]);
    if j < |Kept(init)| {
      i := KeptOrigin(init, j);
      assert init[..i] == entries[..i];
    } else {
      i := n;
    }
  }

  /** Two kept entries appear in the list in the order of the entries. */
  lemma KeptOrdered(entries: seq<Entry>, i: nat, i': nat)
    requires i < i' < |entries|
    requires !IsEmptyValue(entries[i].value) && !IsEmptyValue(entries[i'].value)
    ensures |Kept(entries[..i])| < |Kept(entries[..i'])| < |Kept(entries)|
    ensures Kept(entries)[|Kept(entries[..i])|] == (entries[i].key, Stringify(entries[i].value))
    ensures Kept(entries)[|Kept(entries[..i'])|] == (entries[i'].key, Stringify(entries[i'].value))
  {
    assert entries[..i'] == entries[..i + 1] + entries[i + 1..i'];
    KeptAppend(entries[..i + 1], entries[i + 1..i']);
    KeptStep(entries, i);
    KeptPosition(entries, i);
    KeptPosition(entries, i');
  }

  /** A pair is in the list exactly when some non-empty entry stringifies to it. */
  lemma KeptMembers(entries: seq<Entry>, p: Pair)
    ensures p in Kept(entries) <==>
      exists i :: 0 <= i < |entries| && !IsEmptyValue(entries[i].value)
               && p == (entries[i].key, Stringify(entries[i].value))
  {
    if p in Kept(entries) {
      var j :| 0 <= j < |Kept(entries)| && Kept(entries)[j] == p;
      var i := KeptOrigin(entries, j);
    }
    if exists i :: 0 <= i < |entries| && !IsEmptyValue(entries[i].value)
                && p == (entries[i].key, Stringify(entries[i].value)) {
      var i :| 0 <= i < |entries| && !IsEmptyValue(entries[i].value)
            && p == (entries[i].key, Stringify(entries[i].value));
      KeptPosition(entries, i);
    }
  }

  /** A name is in the list exactly when some entry with that key has a non-empty value. */
  lemma KeptHasKey(entries: seq<Entry>, k: string)
    ensures HasKey(Kept(entries), k) <==>
      exists i :: 0 <= i < |entries| && entries[i].key == k && !IsEmptyValue(entries[i].value)
  {
    if HasKey(Kept(entries), k) {
      var j :| 0 <= j < |Kept(entries)| && Kept(entries)[j].0 == k;
      var i := KeptOrigin(entries, j);
    }
    if exists i :: 0 <= i < |entries| && entries[i].key == k && !IsEmptyValue(entries[i].value) {
      var i :| 0 <= i < |entries| && entries[i].key == k && !IsEmptyValue(entries[i].value);
      KeptPosition(entries, i);
    }
  }

  /** Filtering the entries of an object cannot produce a repeated name. */
  lemma KeptDistinct(entries: seq<Entry>)
    requires DistinctEntryKeys(entries)
    ensures DistinctKeys(Kept(entries))
  {
    var kept := Kept(entries);
    forall j, j' | 0 <= j < j' < |kept|
      ensures kept[j].0 != kept[j'].0
    {
      var i := KeptOrigin(entries, j);
      var i' := KeptOrigin(entries, j');
      assert i != i';
    }
  }

  // ---------------------------------------------------------------------------
  // Counting names

  lemma {:induction false} KeyCountAppend(a: seq<Pair>, b: seq<Pair>, k: string)
    ensures KeyCount(a + b, k) == KeyCount(a, k) + KeyCount(b, k)
    decreases |b|
  {
    if b == [] {
      assert a + b == a;
    } else {
      var b' := b[..|b| - 1];
      assert (a + b)[..|a + b| - 1] == a + b';
      KeyCountAppend(a, b', k);
    }
  }

  /** A name that is absent is counted zero times. */
  lemma {:induction false} KeyCountAbsent(pairs: seq<Pair>, k: string)
    requires !HasKey(pairs, k)
    ensures KeyCount(pairs, k) == 0
    decreases |pairs|
  {
    if pairs != [] {
      var init := pairs[..|pairs| - 1];
      assert !HasKey(init, k) by {
        forall j | 0 <= j < |init| ensures init[j].0 != k { assert init[j] == pairs[j]; }
      }
      KeyCountAbsent(init, k);
    }
  }

  /** In a list without repeated names, a present name is counted exactly once. */
  lemma {:induction false} KeyCountDistinct(pairs: seq<Pair>, k: string)
    requires DistinctKeys(pairs) && HasKey(pairs, k)
    ensures KeyCount(pairs, k) == 1
    decreases |pairs|
  {
    var n := |pairs| - 1;
    var init := pairs[..n];
    assert DistinctKeys(init) by {
      forall j, j' | 0 <= j < j' < |init| ensures init[j].0 != init[j'].0 {
        assert init[j] == pairs[j] && init[j'] == pairs[j'];
      }
    }
    if pairs[n].0 == k {
      assert !HasKey(init, k) by {
        forall j | 0 <= j < |init| ensures init[j].0 != k { assert init[j] == pairs[j]; }
      }
      KeyCountAbsent(init, k);
    } else {
      var j :| 0 <= j < |pairs| && pairs[j].0 == k;
      assert init[j] == pairs[j];
      KeyCountDistinct(init, k);
    }
  }

  // ---------------------------------------------------------------------------
  // The `page` default

  /** The empty filter `{}` yields exactly `page=1`. */
  lemma EmptyFilterQuery()
    ensures QueryPairs([]) == [(PageKey, DefaultPage)]
  {
  }

  /**
   * When no `page` entry has a non-empty value (absent, or given as null,
   * undefined or ""), exactly one `("page", "1")` is added, after every kept pair.
   */
  lemma PageDefaulted(entries: seq<Entry>)
    requires forall i :: 0 <= i < |entries| && entries[i].key == PageKey ==> IsEmptyValue(entries[i].value)
    ensures QueryPairs(entries) == Kept(entries) + [(PageKey, DefaultPage)]
    ensures KeyCount(QueryPairs(entries), PageKey) == 1
  {
    PageNotKept(entries);
    DefaultAppended(entries);
  }

  lemma DefaultAppended(entries: seq<Entry>)
    requires !HasKey(Kept(entries), PageKey)
    ensures QueryPairs(entries) == Kept(entries) + [(PageKey, DefaultPage)]
    ensures KeyCount(QueryPairs(entries), PageKey) == 1
  {
    KeyCountAbsent(Kept(entries), PageKey);
    KeyCountAppend(Kept(entries), [(PageKey, DefaultPage)], PageKey);
  }

  lemma PageNotKept(entries: seq<Entry>)
    requires forall i :: 0 <= i < |entries| && entries[i].key == PageKey ==> IsEmptyValue(entries[i].value)
    ensures !HasKey(Kept(entries), PageKey)
  {
    KeptHasKey(entries, PageKey);
  }

  /**
   * A `page` given with a non-empty value is sent as given and no default is
   * added; among the entries of an object it is then the only `page` pair.
   */
  lemma PageGiven(entries: seq<Entry>, i: nat)
    requires i < |entries| && entries[i].key == PageKey && !IsEmptyValue(entries[i].value)
    ensures QueryPairs(entries) == Kept(entries)
    ensures (PageKey, Stringify(entries[i].value)) in QueryPairs(entries)
    ensures DistinctEntryKeys(entries) ==> KeyCount(QueryPairs(entries), PageKey) == 1
  {
    KeptHasKey(entries, PageKey);
    KeptMembers(entries, (PageKey, Stringify(entries[i].value)));
    if DistinctEntryKeys(entries) {
      KeptDistinct(entries);
      KeyCountDistinct(Kept(entries), PageKey);
    }
  }

  /** The only pair not taken from an entry is the `page` default. */
  lemma QueryPairsSound(entries: seq<Entry>, p: Pair)
    requires p in QueryPairs(entries)
    ensures p == (PageKey, DefaultPage) ||
      exists i :: 0 <= i < |entries| && !IsEmptyValue(entries[i].value)
               && p == (entries[i].key, Stringify(entries[i].value))
  {
    KeptMembers(entries, p);
  }

  /** No default is injected for any name but `page`: every other name is sent as often as the filter sends it. */
  lemma OnlyPageDefaulted(entries: seq<Entry>, k: string)
    requires k != PageKey
    ensures KeyCount(QueryPairs(entries), k) == KeyCount(Kept(entries), k)
    ensures HasKey(QueryPairs(entries), k) <==>
      exists i :: 0 <= i < |entries| && entries[i].key == k && !IsEmptyValue(entries[i].value)
  {
    var kept := Kept(entries);
    KeptHasKey(entries, k);
    if !HasKey(kept, PageKey) {
      var d := [(PageKey, DefaultPage)];
      KeyCountAppend(kept, d, k);
      assert d[..0] == [];
      assert HasKey(kept + d, k) ==> HasKey(kept, k) by {
        if HasKey(kept + d, k) {
          var j :| 0 <= j < |kept + d| && (kept + d)[j].0 == k;
          assert j < |kept| && (kept + d)[j] == kept[j];
        }
      }
      assert HasKey(kept, k) ==> HasKey(kept + d, k) by {
        if HasKey(kept, k) {
          var j :| 0 <= j < |kept| && kept[j].0 == k;
          assert (kept + d)[j] == kept[j];
        }
      }
    }
  }

  /** The entries of an object give a list without repeated names, with exactly one `page`. */
  lemma QueryPairsDistinct(entries: seq<Entry>)
    requires DistinctEntryKeys(entries)
    ensures DistinctKeys(QueryPairs(entries))
    ensures KeyCount(QueryPairs(entries), PageKey) == 1
  {
    var kept := Kept(entries);
    KeptDistinct(entries);
    if !HasKey(kept, PageKey) {
      var r := kept + [(PageKey, DefaultPage)];
      forall j, j' | 0 <= j < j' < |r| ensures r[j].0 != r[j'].0 {
        if j' == |kept| {
          assert r[j] == kept[j];
        } else {
          assert r[j] == kept[j] && r[j'] == kept[j'];
        }
      }
    }
    KeyCountDistinct(QueryPairs(entries), PageKey);
  }

  /** A filter typed as `SearchParams` sends only the names `SearchParams` declares. */
  lemma QueryPairsTyped(entries: seq<Entry>)
    requires TypedKeys(entries)
    ensures forall j :: 0 <= j < |QueryPairs(entries)| ==> QueryPairs(entries)[j].0 in SearchParamKeys
  {
    var r := QueryPairs(entries);
    forall j | 0 <= j < |r| ensures r[j].0 in SearchParamKeys {
      if j < |Kept(entries)| {
        var i := KeptOrigin(entries, j);
      }
    }
  }

  /** `bedrooms: 0` is not empty: it is sent as `("bedrooms", "0")`. */
  lemma ZeroBedroomsKept()
    ensures QueryPairs([Entry("bedrooms", Num(0))]) == [("bedrooms", "0"), (PageKey, DefaultPage)]
  {
    var e := [Entry("bedrooms", Num(0))];
    assert e[..0] == [];
    assert Kept(e) == [("bedrooms", "0")];
    assert !HasKey(Kept(e), PageKey);
  }

  lemma PriceDigits()
    ensures Stringify(Num(100000)) == "100000" && Stringify(Num(500000)) == "500000" && Stringify(Num(2)) == "2"
  {
    assert Decimal.NatToString(100000) == "100000" by {
      assert Decimal.NatToString(10) == "10";
      assert Decimal.NatToString(100) == "100";
      assert Decimal.NatToString(1000) == "1000";
      assert Decimal.NatToString(10000) == "10000";
    }
    assert Decimal.NatToString(500000) == "500000" by {
      assert Decimal.NatToString(50) == "50";
      assert Decimal.NatToString(500) == "500";
      assert Decimal.NatToString(5000) == "5000";
      assert Decimal.NatToString(50000) == "50000";
    }
  }

  /** A price range with `page: 2` is sent as given, in entry order, and nothing is added, not even `per_page`. */
  lemma PriceRangePageTwo()
    ensures QueryPairs([Entry("price_min", Num(100000)), Entry("price_max", Num(500000)), Entry("page", Num(2))])
         == [("price_min", "100000"), ("price_max", "500000"), ("page", "2")]
  {
    var e := [Entry("price_min", Num(100000)), Entry("price_max", Num(500000)), Entry("page", Num(2))];
    PriceDigits();
    assert e[..0] == [];
    KeptStep(e, 0);
    KeptStep(e, 1);
    KeptStep(e, 2);
    assert e[..3] == e;
    assert Kept(e) == [("price_min", "100000"), ("price_max", "500000"), ("page", "2")];
    PageGiven(e, 2);
  }
}
