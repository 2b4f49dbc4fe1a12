/**
 * The records the matcher works on: catalog entries, attribute maps and
 * their values, as the backend holds them after JSON decoding.
 */
module Values {

  datatype Option<+T> = None | Some(value: T)

  /**
   * A value stored under an attribute key.
   * - Num: a Python int, float or bool, for which float() succeeds; text is its str().
   * - Str: a Python str, which float() may or may not parse.
   * - Other: None, a list or a dict, for which float() raises TypeError; text is its str().
   */
  datatype AttrValue =
    | Num(n: real, text: string)
    | Str(s: string)
    | Other(text: string)

  /** A Python dict of attributes, in insertion order. */
  type Attrs = seq<(string, AttrValue)>

  /** What a Python dict guarantees: no key occurs twice. */
  predicate DistinctKeys(d: Attrs)
  {
    forall i, j | 0 <= i < j < |d| :: d[i].0 != d[j].0
  }

  /** `d.get(key)`: the value stored under key, if any. */
  function Lookup(d: Attrs, key: string): (r: Option<AttrValue>)
    ensures r.None? <==> forall i | 0 <= i < |d| :: d[i].0 != key
    ensures r.Some? ==> exists i | 0 <= i < |d| :: d[i] == (key, r.value)
  {
    if d == [] then None
    else if d[0].0 == key then Some(d[0].1)
    else
      var r := Lookup(d[1..], key);
      assert r.Some? ==> exists i | 0 <= i < |d[1..]| :: d[1..][i] == (key, r.value);
      r
  }

  /** An animal row as returned by the catalog store. */
  datatype Animal = Animal(
    id: int,
    name: string,
    habitat: string,
    facts: string,
    attributes: Option<Attrs>,
    imagePath: Option<string>,
    featureVector: Option<seq<real>>)
}
