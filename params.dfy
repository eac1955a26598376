/**
 * The search filter a caller hands to `searchProperties`: the entries of a
 * `SearchParams` object, in the order `Object.entries` lists them.
 */
module Params {

  import opened Wrappers
  import opened Decimal

  /** The JavaScript values a filter field can hold. Numbers are integral. */
  datatype Value = Null | Undefined | Str(s: string) | Num(n: int)

  /** One own property of the filter object. */
  datatype Entry = Entry(key: string, value: Value)

  const PageKey: string := "page"
  const DefaultPage: string := "1"

  /** The fields `SearchParams` declares; every one of them is optional. */
  const SearchParamKeys: set<string> :=
    {"name", "bedrooms", "bathrooms", "storeys", "garages",
     "price_min", "price_max", "page", "per_page"}

  /** `value === null || value === undefined || value === ""`: such an entry is not sent. */
  predicate IsEmptyValue(v: Value)
    ensures v.Num? ==> !IsEmptyValue(v)
    ensures v.Str? ==> (IsEmptyValue(v) <==> |v.s| == 0)
  {
    v.Null? || v.Undefined? || v == Str("")
  }

  /** `String(value)` for a value that is sent. */
  function Stringify(v: Value): (s: string)
    requires !IsEmptyValue(v)
    ensures s != ""
    ensures v.Str? ==> s == v.s
    ensures v.Num? ==> ParseInt(s) == Some(v.n)
  {
    match v
    case Str(t) => t
    case Num(n) => IntToStringRoundTrip(n); IntToString(n)
  }

  /** The keys of an object are distinct, so its entries are too. */
  predicate DistinctEntryKeys(entries: seq<Entry>) {
    forall i, j :: 0 <= i < j < |entries| ==> entries[i].key != entries[j].key
  }

  /** The filter uses only fields that `SearchParams` declares. */
  predicate TypedKeys(entries: seq<Entry>) {
    forall i :: 0 <= i < |entries| ==> entries[i].key in SearchParamKeys
  }

  /** Numeric zero is a value like any other: it is not empty and is sent as "0". */
  lemma ZeroIsSent()
    ensures !IsEmptyValue(Num(0)) && Stringify(Num(0)) == "0"
  {
  }
}
