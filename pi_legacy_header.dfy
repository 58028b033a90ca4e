/**
 * The multi-valued header map of the pihttp prototype: a name maps to the
 * list of values received under it (the Header type that
 * pihttp/parse_request.go builds and the header type of pihttp/server.go).
 * Both prototype parsers fill it the same way: a repeated name appends its
 * value after the earlier ones.
 */
module PiLegacyHeader {

  type Header = map<string, seq<string>>

  /** The values held under `key`; a missing key reads as no values, as a nil slice does. */
  function ValuesAt(h: Header, key: string): seq<string> {
    if key in h then h[key] else []
  }

  /** header[key] = append(header[key], val) */
  function Appended(h: Header, key: string, val: string): (r: Header)
    ensures r.Keys == h.Keys + {key}
    ensures ValuesAt(r, key) == ValuesAt(h, key) + [val]
    ensures forall k :: k in h && k != key ==> r[k] == h[k]
  {
    h[key := ValuesAt(h, key) + [val]]
  }

  /** The map built by appending each (name, value) pair in turn to an empty map. */
  function Collect(pairs: seq<(string, string)>): Header
    decreases |pairs|
  {
    if pairs == [] then map[]
    else
      var p := pairs[|pairs| - 1];
      Appended(Collect(pairs[..|pairs| - 1]), p.0, p.1)
  }

  /** The values of the pairs named `key`, in the order of the pairs. */
  function ValuesFor(pairs: seq<(string, string)>, key: string): seq<string>
    decreases |pairs|
  {
    if pairs == [] then []
    else
      var p := pairs[|pairs| - 1];
      ValuesFor(pairs[..|pairs| - 1], key) + (if p.0 == key then [p.1] else [])
  }

  /** Collecting one more pair appends its value under its name. */
  lemma CollectSnoc(pairs: seq<(string, string)>, key: string, val: string)
    ensures Collect(pairs + [(key, val)]) == Appended(Collect(pairs), key, val)
  {
    assert (pairs + [(key, val)])[..|pairs|] == pairs;
  }

  /**
   * The collected map holds a name exactly when some pair carries it, and
   * under it the values of those pairs, in the order they came.
   */
  lemma {:induction false} CollectInOrder(pairs: seq<(string, string)>, key: string)
    ensures ValuesAt(Collect(pairs), key) == ValuesFor(pairs, key)
    ensures key in Collect(pairs) <==> ValuesFor(pairs, key) != []
    decreases |pairs|
  {
    if pairs != [] {
      CollectInOrder(pairs[..|pairs| - 1], key);
    }
  }

  /** A name carried by any of the pairs is a key of the collected map. */
  lemma {:induction false} NamedPairCollected(pairs: seq<(string, string)>, i: nat)
    requires i < |pairs|
    ensures pairs[i].0 in Collect(pairs)
    decreases |pairs|
  {
    if i < |pairs| - 1 {
      NamedPairCollected(pairs[..|pairs| - 1], i);
    }
  }
}
