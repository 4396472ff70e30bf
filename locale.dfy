/**
 * Looking up an interface string in a locale dictionary by a dotted key
 * such as "btn.toggle".
 */
module Locale {
  import opened JsValues
  import JsStrings

  /**
   * The value reached by following `parts` from `v`: each step needs a
   * truthy current value that has the part as an own property; the first
   * step that cannot be taken gives undefined.
   */
  function Lookup(v: JsValue, parts: seq<string>): JsValue
    decreases |parts|
  {
    if |parts| == 0 then v
    else if Truthy(v) && OwnProperty(v, parts[0]).Some? then Lookup(OwnProperty(v, parts[0]).value, parts[1..])
    else Undefined
  }

  /** The dictionary entry for a dotted key, walked one key segment at a time. */
  method GetDictValue(dict: JsValue, path: string) returns (r: JsValue)
    ensures r == Lookup(dict, JsStrings.Split(path, '.'))
  {
    var parts := JsStrings.Split(path, '.');
    var cur := dict;
    for i := 0 to |parts|
      invariant Lookup(dict, parts) == Lookup(cur, parts[i..])
    {
      if Truthy(cur) && OwnProperty(cur, parts[i]).Some? {
        cur := OwnProperty(cur, parts[i]).value;
      } else {
        return Undefined;
      }
    }
    return cur;
  }

  /** Following a path in two pieces is following the first piece, then the second from where it ends. */
  lemma {:induction false} LookupAppend(v: JsValue, ps: seq<string>, qs: seq<string>)
    ensures Lookup(v, ps + qs) == Lookup(Lookup(v, ps), qs)
    decreases |ps|
  {
    if |ps| == 0 {
      assert ps + qs == qs;
    } else {
      assert (ps + qs)[1..] == ps[1..] + qs;
      if Truthy(v) && OwnProperty(v, ps[0]).Some? {
        LookupAppend(OwnProperty(v, ps[0]).value, ps[1..], qs);
      } else {
        UndefinedStaysUndefined(qs);
      }
    }
  }

  /** Nothing is reached from undefined. */
  lemma UndefinedStaysUndefined(qs: seq<string>)
    ensures Lookup(Undefined, qs) == Undefined
  {
  }

  /** Splitting on the first dot separates the first segment of a dotted key from the rest. */
  lemma {:induction false} SplitAtDot(head: string, tail: string)
    requires '.' !in head
    ensures JsStrings.Split(head + "." + tail, '.') == [head] + JsStrings.Split(tail, '.')
  {
    JsStrings.IndexOfJoin(head, '.', tail);
    var s := head + "." + tail;
    assert s[..|head|] == head && s[|head| + 1..] == tail;
  }

  /**
   * A dotted key looks up its first segment and then the rest of the key
   * in what that segment names: "btn.toggle" is the "toggle" entry of the
   * "btn" entry.
   */
  lemma DottedKey(dict: JsValue, head: string, tail: string)
    requires '.' !in head
    ensures Lookup(dict, JsStrings.Split(head + "." + tail, '.')) == Lookup(Lookup(dict, [head]), JsStrings.Split(tail, '.'))
  {
    SplitAtDot(head, tail);
    LookupAppend(dict, [head], JsStrings.Split(tail, '.'));
  }

  /** A segment that is not an own property of a nested object makes the whole lookup undefined. */
  lemma MissingSegment(fields: map<string, JsValue>, head: string, rest: seq<string>)
    requires head !in fields
    ensures Lookup(Obj(fields), [head] + rest) == Undefined
  {
    assert ([head] + rest)[0] == head;
  }
}
