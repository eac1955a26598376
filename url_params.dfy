/**
 * The part of `URLSearchParams` that `searchProperties` uses: an ordered
 * list of name/value pairs grown by `append`, queried by `has`, and
 * serialised by `toString` in the application/x-www-form-urlencoded format
 * (section 5 of the WHATWG URL Standard). The percent-encoding of a single
 * name or value is library behaviour and is a parameter `enc` here; its
 * inverse is `dec`.
 */
module UrlParams {

  import opened Query

  class QueryParams {
    var list: seq<Pair>

    /** `new URLSearchParams()`. */
    constructor ()
      ensures list == []
    {
      list := [];
    }

    /** `append(name, value)`: adds a pair at the end, keeping any pair with the same name. */
    method Append(name: string, value: string)
      modifies this
      ensures list == old(list) + [(name, value)]
    {
      list := list + [(name, value)];
    }

    /** `has(name)`: whether some pair carries that name. */
    method Has(name: string) returns (found: bool)
      ensures found <==> HasKey(list, name)
    {
      found := false;
      var i := 0;
      while i < |list| && !found
        invariant 0 <= i <= |list|
        invariant found <==> exists j :: 0 <= j < i && list[j].0 == name
      {
        found := list[i].0 == name;
        i := i + 1;
      }
    }

    /** `toString()`. */
    function ToString(enc: string -> string): (s: string)
      reads this
      ensures |s| == 0 <==> list == []
    {
      Serialize(list, enc)
    }
  }

  function EncodePair(p: Pair, enc: string -> string): string {
    enc(p.0) + "=" + enc(p.1)
  }

  /** The form-urlencoded serialisation: `name=value` for each pair, joined by `&`. */
  function Serialize(pairs: seq<Pair>, enc: string -> string): (s: string)
    ensures |s| == 0 <==> pairs == []
    decreases |pairs|
  {
    if pairs == [] then ""
    else if |pairs| == 1 then EncodePair(pairs[0], enc)
    else EncodePair(pairs[0], enc) + "&" + Serialize(pairs[1..], enc)
  }

  /** The index of the first `c` in `s`, or `|s|` if there is none. */
  function IndexOf(s: string, c: char): (i: nat)
    ensures i <= |s|
    ensures i < |s| ==> s[i] == c
    ensures forall j :: 0 <= j < i ==> s[j] != c
    decreases |s|
  {
    if s == [] then 0 else if s[0] == c then 0 else 1 + IndexOf(s[1..], c)
  }

  /** One `&`-separated sequence: the name is what precedes the first `=`, the value what follows it. */
  function ParsePair(seg: string, dec: string -> string): Pair {
    var e := IndexOf(seg, '=');
    if e == |seg| then (dec(seg), dec("")) else (dec(seg[..e]), dec(seg[e + 1..]))
  }

  /** The form-urlencoded parser: split on `&`, skip empty sequences, split each on its first `=`. */
  function ParseQuery(s: string, dec: string -> string): (r: seq<Pair>)
    decreases |s|
  {
    var a := IndexOf(s, '&');
    var here := if a == 0 then [] else [ParsePair(s[..a], dec)];
    if a == |s| then here else here + ParseQuery(s[a + 1..], dec)
  }

  /** What the percent-encoder guarantees: its output never holds a separator. */
  ghost predicate EscapesSeparators(enc: string -> string) {
    forall s :: '&' !in enc(s) && '=' !in enc(s)
  }

  /** `dec` undoes `enc`. */
  ghost predicate Inverts(dec: string -> string, enc: string -> string) {
    forall s :: dec(enc(s)) == s
  }

  lemma IndexOfAbsent(s: string, c: char)
    requires c !in s
    ensures IndexOf(s, c) == |s|
  {
  }

  lemma IndexOfAfter(a: string, c: char, b: string)
    requires c !in a
    ensures IndexOf(a + [c] + b, c) == |a|
  {
    var s := a + [c] + b;
    assert s[|a|] == c;
    assert forall j :: 0 <= j < |a| ==> s[j] == a[j];
  }

  /** The text of one encoded pair holds no `&` and splits back at its only `=`. */
  lemma EncodedPairDecodes(p: Pair, enc: string -> string, dec: string -> string)
    requires EscapesSeparators(enc) && Inverts(dec, enc)
    ensures '&' !in EncodePair(p, enc) && |EncodePair(p, enc)| > 0
    ensures ParsePair(EncodePair(p, enc), dec) == p
  {
    var k, v := enc(p.0), enc(p.1);
    var seg := EncodePair(p, enc);
    assert seg == k + ['='] + v;
    assert '&' !in seg by {
      forall j | 0 <= j < |seg| ensures seg[j] != '&' {
        if j < |k| { assert seg[j] == k[j]; }
        else if j > |k| { assert seg[j] == v[j - |k| - 1]; }
      }
    }
    IndexOfAfter(k, '=', v);
    assert seg[..|k|] == k && seg[|k| + 1..] == v;
  }

  /** A last sequence without `&` parses as one pair. */
  lemma ParseLast(seg: string, dec: string -> string)
    requires '&' !in seg && |seg| > 0
    ensures ParseQuery(seg, dec) == [ParsePair(seg, dec)]
  {
    IndexOfAbsent(seg, '&');
    assert seg[..|seg|] == seg;
  }

  /** A first sequence without `&` parses as one pair before the rest. */
  lemma ParseFirst(seg: string, rest: string, dec: string -> string)
    requires '&' !in seg && |seg| > 0
    ensures ParseQuery(seg + "&" + rest, dec) == [ParsePair(seg, dec)] + ParseQuery(rest, dec)
  {
    var s := seg + "&" + rest;
    IndexOfAfter(seg, '&', rest);
    assert s[..|seg|] == seg && s[|seg| + 1..] == rest;
  }

  /** Parsing a serialised list gives the list back: `toString` loses nothing. */
  lemma {:induction false} SerializeRoundTrip(pairs: seq<Pair>, enc: string -> string, dec: string -> string)
    requires EscapesSeparators(enc) && Inverts(dec, enc)
    ensures ParseQuery(Serialize(pairs, enc), dec) == pairs
    decreases |pairs|
  {
    if pairs != [] {
      var first := EncodePair(pairs[0], enc);
      EncodedPairDecodes(pairs[0], enc, dec);
      if |pairs| == 1 {
        ParseLast(first, dec);
      } else {
        ParseFirst(first, Serialize(pairs[1..], enc), dec);
        SerializeRoundTrip(pairs[1..], enc, dec);
        assert [pairs[0]] + pairs[1..] == pairs;
      }
    }
  }
}
