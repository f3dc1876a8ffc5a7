/**
 Operations shared by both tables: deleting by primary key, and visiting rows one at a time.
 */
module Tables {

  /** Remove the row with key `k`; when there is none the table is left as it is. */
  function Remove<K, V>(m: map<K, V>, k: K): (m': map<K, V>)
    ensures m'.Keys == m.Keys - {k}
    ensures forall j :: j in m' ==> m'[j] == m[j]
    ensures k !in m ==> m' == m
  {
    m - {k}
  }

  /** Some element of a non-empty set: the next row a loop over a table visits, in an
      order the model leaves open. */
  method Choose<T>(s: set<T>) returns (x: T)
    requires s != {}
    ensures x in s
  {
    x :| x in s;
  }
}
