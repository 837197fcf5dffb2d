/** Choosing a row of a table and cutting a prefix: the parts of the data
    store's query builder that do not depend on the row type. */
module Query {

  /** Some key of a non-empty table. */
  ghost function Pick<K, V>(table: map<K, V>): (k: K)
    requires table != map[]
    ensures k in table
  {
    var k :| k in table; k
  }

  /** `.limit(n)`: the first `n` rows, or all of them when there are fewer. */
  function Take<T>(s: seq<T>, n: nat): (r: seq<T>)
    ensures |r| <= n && |r| <= |s|
    ensures |r| == n || r == s
    ensures forall i :: 0 <= i < |r| ==> r[i] == s[i]
  {
    if |s| <= n then s else s[..n]
  }
}
