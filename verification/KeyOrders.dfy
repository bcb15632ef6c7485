/** Iterating the string-keyed maps of the source: some order of the keys, each once. */
module KeyOrders {

  /** `order` lists the keys, each once. */
  ghost predicate Lists(order: seq<string>, keys: set<string>) {
    Once(order) && forall k :: k in order <==> k in keys
  }

  ghost predicate Once(order: seq<string>) {
    forall i, j :: 0 <= i < j < |order| ==> order[i] != order[j]
  }

  function Restrict<T>(m: map<string, T>, order: seq<string>): map<string, T> {
    map k | k in m && k in order :: m[k]
  }

  /** Some iteration order of a map's keys. */
  method AnyOrder(keys: set<string>) returns (order: seq<string>)
    ensures Lists(order, keys)
  {
    order := [];
    var todo := keys;
    while todo != {}
      invariant todo <= keys && Lists(order, keys - todo)
      decreases |todo|
    {
      var k :| k in todo;
      order := order + [k];
      todo := todo - {k};
    }
  }
}
