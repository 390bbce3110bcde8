/** Facts about maps shared by the modules that build them. */
module Maps {

  /** Maps with the same keys and the same value at each are equal. */
  lemma MapsEqual<K, V>(x: map<K, V>, y: map<K, V>)
    requires forall k :: k in x <==> k in y
    requires forall k | k in x :: x[k] == y[k]
    ensures x == y
  {
  }
}
