/** The optional value that Python spells `str | None`. */
module Maybe {

  datatype Option<+T> = None | Some(value: T)

  /** Python's `dict.get(key, default)`. */
  function Lookup<K, V>(m: map<K, V>, key: K, default: V): (r: V)
    ensures key in m ==> r == m[key]
    ensures key !in m ==> r == default
  {
    if key in m then m[key] else default
  }
}
