/** The loops the `Value` and `ValueRef` visitors run over serde's access
    objects: `while let Some(v) = seq.next_element()? { vec.push(v) }` and
    `while let Some((k, v)) = map.next_entry()? { bmap.insert(k, v) }`.
    The access is given as the script of answers it produces. */
module Visit {
  import opened Errors
  import opened Dict

  /** One answer of `next_element` or `next_entry`: an element (`Ok(Some)`),
      the end (`Ok(None)`), or an error. A script that runs out answers
      `Done` from then on. */
  datatype Step<T> = Item(value: T) | Done | Failure(error: Error)

  /** How many elements the access yields before its first other answer. */
  function Run<T>(steps: seq<Step<T>>): (n: nat)
    ensures n <= |steps|
    ensures forall i :: 0 <= i < n ==> steps[i].Item?
    ensures n < |steps| ==> !steps[n].Item?
  {
    if |steps| == 0 || !steps[0].Item? then 0 else 1 + Run(steps[1..])
  }

  /** The elements the loop reads before it stops. */
  function Read<T>(steps: seq<Step<T>>): (xs: seq<T>)
    ensures |xs| == Run(steps)
    ensures forall i :: 0 <= i < |xs| ==> xs[i] == steps[i].value
  {
    seq(Run(steps), i requires 0 <= i < Run(steps) => steps[i].value)
  }

  /** The loop stops on the end of the access rather than on an error. */
  predicate EndsCleanly<T>(steps: seq<Step<T>>) {
    Run(steps) == |steps| || steps[Run(steps)].Done?
  }

  /** `visit_seq`: the elements in the order produced, up to the first
      `None`; the first error is propagated by `?` and no partial list is
      returned. */
  method CollectSeq<T>(steps: seq<Step<T>>) returns (r: Result<seq<T>>)
    ensures r.Ok? <==> EndsCleanly(steps)
    ensures r.Ok? ==> r.value == Read(steps)
    ensures r.Err? ==> r.error == steps[Run(steps)].error
  {
    var vec: seq<T> := [];
    var i := 0;
    while i < |steps| && steps[i].Item?
      invariant i <= Run(steps)
      invariant vec == Read(steps)[..i]
    {
      vec := vec + [steps[i].value];
      i := i + 1;
    }
    if i < |steps| && steps[i].Failure? {
      return Err(steps[i].error);
    }
    return Ok(vec);
  }

  /** `visit_map`: every entry read is inserted into a `BTreeMap`, so the
      result is key-sorted, holds exactly the keys read, and for a repeated
      key the value read last; the first error is propagated. */
  method CollectMap<V>(steps: seq<Step<Entry<V>>>) returns (r: Result<Dict<V>>)
    ensures r.Ok? <==> EndsCleanly(steps)
    ensures r.Ok? ==> r.value == FromEntries(Read(steps))
    ensures r.Ok? ==> Sorted(r.value) && Keys(r.value) == KeysRead(Read(steps))
    ensures r.Ok? ==> forall k :: Get(r.value, k) == LastValue(Read(steps), k)
    ensures r.Err? ==> r.error == steps[Run(steps)].error
  {
    var bmap: Dict<V> := [];
    var i := 0;
    while i < |steps| && steps[i].Item?
      invariant i <= Run(steps)
      invariant bmap == FromEntries(Read(steps)[..i])
    {
      FromEntriesSnoc(Read(steps), i);
      bmap := Insert(bmap, steps[i].value.key, steps[i].value.value);
      i := i + 1;
    }
    if i < |steps| && steps[i].Failure? {
      return Err(steps[i].error);
    }
    assert Read(steps)[..i] == Read(steps);
    FromEntriesMeaning(Read(steps));
    return Ok(bmap);
  }
}
