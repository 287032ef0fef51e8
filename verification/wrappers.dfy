/** The optional result of the checked ("safe") interface: `None` stands for
    `std::nullopt`, `Some(v)` for an engaged optional. */
module Wrappers {

  datatype Option<+T> = None | Some(value: T)

}

/** Small facts about maps shared by the managers' proofs. */
module Maps {

  /** Maps with the same keys and the same value at each key are equal. */
  lemma SameMaps<K, V>(a: map<K, V>, b: map<K, V>)
    requires a.Keys == b.Keys && forall k :: k in a ==> a[k] == b[k]
    ensures a == b
  {
  }

}
