/** std::map as the form parsers use it. */
module Maps {

  /** map::insert keeps what is there. */
  function Insert<K, V>(m: map<K, V>, k: K, v: V): map<K, V> {
    if k in m then m else m[k := v]
  }
}
