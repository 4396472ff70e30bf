/**
 * `URLSearchParams` as the WHATWG URL Standard defines it: an ordered list
 * of name-value pairs, its `set` and `get` operations, and the
 * application/x-www-form-urlencoded serializer behind `toString()`.
 */
module UrlParams {
  import opened Wrappers
  import JsStrings
  import Utf8
  import UriCoding

  type Pair = (string, string)

  /** `params.get(name)`: the value of the first pair with that name. */
  function GetParam(ps: seq<Pair>, name: string): (r: Option<string>)
    ensures r.None? <==> forall i :: 0 <= i < |ps| ==> ps[i].0 != name
    ensures r.Some? ==> exists i :: 0 <= i < |ps| && ps[i] == (name, r.value)
  {
    if |ps| == 0 then None
    else if ps[0].0 == name then Some(ps[0].1)
    else GetParam(ps[1..], name)
  }

  /** `get` finds the first pair with the name. */
  lemma {:induction false} GetParamAt(ps: seq<Pair>, name: string, i: nat)
    requires i < |ps| && ps[i].0 == name
    requires forall j :: 0 <= j < i ==> ps[j].0 != name
    ensures GetParam(ps, name) == Some(ps[i].1)
  {
    if i > 0 {
      GetParamAt(ps[1..], name, i - 1);
    }
  }

  /** The pairs whose name differs from `name`, in order. */
  function Without(ps: seq<Pair>, name: string): (r: seq<Pair>)
    ensures forall i :: 0 <= i < |r| ==> r[i].0 != name
    ensures |r| <= |ps|
  {
    if |ps| == 0 then []
    else if ps[0].0 == name then Without(ps[1..], name)
    else [ps[0]] + Without(ps[1..], name)
  }

  /**
   * `params.set(name, value)`: the first pair with that name takes the new
   * value and every later pair with that name is removed; with no such pair,
   * the pair is appended.
   */
  function SetParam(ps: seq<Pair>, name: string, value: string): (r: seq<Pair>)
    ensures |r| >= 1
    ensures |r| <= |ps| + 1
  {
    if |ps| == 0 then [(name, value)]
    else if ps[0].0 == name then [(name, value)] + Without(ps[1..], name)
    else [ps[0]] + SetParam(ps[1..], name, value)
  }

  /** `set` leaves the pairs of every other name as they were, in order. */
  lemma {:induction false} SetKeepsOthers(ps: seq<Pair>, name: string, value: string)
    ensures Without(SetParam(ps, name, value), name) == Without(ps, name)
  {
    if |ps| > 0 {
      var r := SetParam(ps, name, value);
      if ps[0].0 == name {
        var rest := Without(ps[1..], name);
        WithoutNothing(rest, name);
        assert r[1..] == rest;
      } else {
        SetKeepsOthers(ps[1..], name, value);
        assert r[1..] == SetParam(ps[1..], name, value);
      }
    }
  }

  /** Removing a name no pair carries changes nothing. */
  lemma {:induction false} WithoutNothing(ps: seq<Pair>, name: string)
    requires forall i :: 0 <= i < |ps| ==> ps[i].0 != name
    ensures Without(ps, name) == ps
  {
    if |ps| > 0 {
      WithoutNothing(ps[1..], name);
      assert ps == [ps[0]] + ps[1..];
    }
  }

  /** Setting a name that is not there appends the pair and changes nothing else. */
  lemma {:induction false} SetAbsent(ps: seq<Pair>, name: string, value: string)
    requires forall i :: 0 <= i < |ps| ==> ps[i].0 != name
    ensures SetParam(ps, name, value) == ps + [(name, value)]
  {
    if |ps| > 0 {
      SetAbsent(ps[1..], name, value);
      assert ps == [ps[0]] + ps[1..];
    }
  }

  /** After `set`, `get` of that name gives the new value and every other name reads as before. */
  lemma {:induction false} GetAfterSet(ps: seq<Pair>, name: string, value: string, other: string)
    ensures GetParam(SetParam(ps, name, value), name) == Some(value)
    ensures other != name ==> GetParam(SetParam(ps, name, value), other) == GetParam(ps, other)
  {
    if |ps| > 0 {
      if ps[0].0 == name {
        if other != name {
          GetWithout(ps[1..], name, other);
        }
      } else {
        GetAfterSet(ps[1..], name, value, other);
      }
    }
  }

  lemma {:induction false} GetWithout(ps: seq<Pair>, name: string, other: string)
    requires other != name
    ensures GetParam(Without(ps, name), other) == GetParam(ps, other)
  {
    if |ps| > 0 {
      GetWithout(ps[1..], name, other);
    }
  }

  /** `set` leaves exactly one pair with that name. */
  lemma {:induction false} SetLeavesOne(ps: seq<Pair>, name: string, value: string)
    ensures exists i :: 0 <= i < |SetParam(ps, name, value)| && SetParam(ps, name, value)[i] == (name, value) &&
              forall j :: 0 <= j < |SetParam(ps, name, value)| && j != i ==> SetParam(ps, name, value)[j].0 != name
  {
    var r := SetParam(ps, name, value);
    if |ps| == 0 {
      assert r[0] == (name, value);
    } else if ps[0].0 == name {
      var w := Without(ps[1..], name);
      assert r == [(name, value)] + w;
      assert forall j :: 1 <= j < |r| ==> r[j] == w[j - 1];
      assert r[0] == (name, value);
    } else {
      SetLeavesOne(ps[1..], name, value);
      var t := SetParam(ps[1..], name, value);
      var i :| 0 <= i < |t| && t[i] == (name, value) && forall j :: 0 <= j < |t| && j != i ==> t[j].0 != name;
      assert r == [ps[0]] + t;
      assert r[i + 1] == (name, value);
      assert forall j :: 1 <= j < |r| ==> r[j] == t[j - 1];
    }
  }

  /**
   * The URLSearchParams object of a URL, updated in place by `set`.
   */
  class SearchParams {
    var list: seq<Pair>

    constructor ()
      ensures list == []
    {
      list := [];
    }

    method Set(name: string, value: string)
      modifies this
      ensures list == SetParam(old(list), name, value)
    {
      var ps := list;
      var i := 0;
      var found := false;
      var out: seq<Pair> := [];
      assert ps[0..] == ps;
      while i < |ps|
        invariant 0 <= i <= |ps|
        invariant Scanned(ps, i, name, value, out, found)
      {
        ScanStep(ps, i, name, value, out, found);
        if ps[i].0 == name {
          if !found {
            out := out + [(name, value)];
            found := true;
          }
        } else {
          out := out + [ps[i]];
        }
        i := i + 1;
      }
      list := if found then out else out + [(name, value)];
    }
  }

  /**
   * The loop of `set` after the first `i` pairs: `out` holds what it kept
   * and the rest of the result is still to come from `ps[i..]`.
   */
  predicate Scanned(ps: seq<Pair>, i: int, name: string, value: string, out: seq<Pair>, found: bool)
    requires 0 <= i <= |ps|
  {
    if found then SetParam(ps, name, value) == out + Without(ps[i..], name)
    else SetParam(ps, name, value) == out + SetParam(ps[i..], name, value)
  }

  /** One pair of the scan: the first pair with the name is replaced, later ones dropped, others kept. */
  lemma ScanStep(ps: seq<Pair>, i: int, name: string, value: string, out: seq<Pair>, found: bool)
    requires 0 <= i < |ps| && Scanned(ps, i, name, value, out, found)
    ensures ps[i].0 == name && !found ==> Scanned(ps, i + 1, name, value, out + [(name, value)], true)
    ensures ps[i].0 == name && found ==> Scanned(ps, i + 1, name, value, out, true)
    ensures ps[i].0 != name ==> Scanned(ps, i + 1, name, value, out + [ps[i]], found)
  {
    var rest := ps[i + 1..];
    assert ps[i..] == [ps[i]] + rest;
    if ps[i].0 == name {
      if !found {
        assert out + ([(name, value)] + Without(rest, name)) == (out + [(name, value)]) + Without(rest, name);
      }
    } else if found {
      assert out + ([ps[i]] + Without(rest, name)) == (out + [ps[i]]) + Without(rest, name);
    } else {
      assert out + ([ps[i]] + SetParam(rest, name, value)) == (out + [ps[i]]) + SetParam(rest, name, value);
    }
  }

  /** Bytes the form-urlencoded serializer leaves as they are: `*-._`, digits and ASCII letters. */
  predicate IsFormSafe(b: int)
  {
    b == 0x2A || b == 0x2D || b == 0x2E || b == 0x5F || (0x30 <= b <= 0x39) || (0x41 <= b <= 0x5A) || (0x61 <= b <= 0x7A)
  }

  function FormEncodeBytes(bytes: seq<int>): (r: string)
    requires forall i :: 0 <= i < |bytes| ==> 0 <= bytes[i] < 256
    ensures '&' !in r && '=' !in r && '#' !in r
  {
    if |bytes| == 0 then ""
    else
      var b := bytes[0];
      var head := if b == 0x20 then "+" else if IsFormSafe(b) then [b as char] else UriCoding.PercentEncode([b]);
      head + FormEncodeBytes(bytes[1..])
  }

  /** The urlencoded form of one name or value: UTF-8, space as `+`, the rest percent-encoded. */
  function FormEncode(s: string): (r: string)
    ensures '&' !in r && '=' !in r && '#' !in r
  {
    FormEncodeBytes(Utf8.Encode(s))
  }

  function PairTexts(ps: seq<Pair>): (r: seq<string>)
    ensures |r| == |ps|
    ensures forall i :: 0 <= i < |r| ==> r[i] == FormEncode(ps[i].0) + "=" + FormEncode(ps[i].1)
  {
    if |ps| == 0 then [] else [FormEncode(ps[0].0) + "=" + FormEncode(ps[0].1)] + PairTexts(ps[1..])
  }

  /**
   * `params.toString()`: `name=value` pairs joined with `&`. No pairs give
   * the empty string, and the result never holds `#`, so a URL ending in
   * `?` and this query keeps it all in the query.
   */
  function Serialize(ps: seq<Pair>): (r: string)
    ensures |ps| == 0 ==> r == ""
    ensures '#' !in r
  {
    var t := PairTexts(ps);
    JsStrings.JoinKeepsOut(t, '&', '#');
    JsStrings.Join(t, '&')
  }

  /** The query splits back at `&` into one `name=value` piece per pair, in order. */
  lemma SerializeSplits(ps: seq<Pair>)
    requires |ps| >= 1
    ensures JsStrings.Split(Serialize(ps), '&') == PairTexts(ps)
  {
    var t := PairTexts(ps);
    forall i | 0 <= i < |t|
      ensures '&' !in t[i]
    {
      var n, v := FormEncode(ps[i].0), FormEncode(ps[i].1);
      assert t[i] == n + "=" + v;
    }
    JsStrings.SplitJoin(t, '&');
  }
}
