/** Small shared types: values that may be absent, and dictionaries whose later entries overwrite earlier ones. */
module Options {
  datatype Option<+T> = None | Some(value: T)

  /** The position a dictionary built from `keys` in order holds for `key`: the last one. */
  function LastIndex(keys: seq<string>, key: string): (r: Option<nat>)
    ensures r.Some? ==> r.value < |keys|
  {
    if |keys| == 0 then None
    else if keys[|keys| - 1] == key then Some(|keys| - 1)
    else LastIndex(keys[..|keys| - 1], key)
  }

  lemma {:induction false} LastIndexIsLast(keys: seq<string>, key: string)
    ensures var r := LastIndex(keys, key);
            if r.Some? then keys[r.value] == key && forall k :: r.value < k < |keys| ==> keys[k] != key
            else key !in keys
  {
    if |keys| > 0 { LastIndexIsLast(keys[..|keys| - 1], key); }
  }
}
