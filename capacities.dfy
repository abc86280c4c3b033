/** The capacity list of `api/save_capacity.php`: a set of trimmed, non-empty capacity
    labels that a value joins only when it is not already there. */
module CapacityList {
  import opened Wrappers
  import Text
  import opened Schema

  datatype Response = Added | AlreadyExists | Required

  /** `trim($data["capacity"] ?? "")` */
  function Label(raw: Option<string>): (c: string)
    ensures c != [] ==> !Text.PhpSpace(c[0]) && !Text.PhpSpace(c[|c| - 1])
  {
    Text.Trim(raw.GetOr(""), Text.PhpSpace)
  }

  /** The endpoint on the store: only `capacities` may change. */
  function SaveCapacity(t: Tables, raw: Option<string>): (r: (Response, Tables))
    ensures r.0 == Required <==> Label(raw) == ""
    ensures r.0 == AlreadyExists <==> Label(raw) != "" && Label(raw) in t.capacities
    ensures r.0 != Added ==> r.1 == t
    ensures r.0 == Added ==> r.1 == t.(capacities := t.capacities + {Label(raw)})
    ensures r.0 != Required ==> Label(raw) in r.1.capacities
  {
    var c := Label(raw);
    if c == "" then (Required, t)
    else if c in t.capacities then (AlreadyExists, t)
    else (Added, t.(capacities := t.capacities + {c}))
  }

  /** Every stored capacity is a trimmed, non-empty label. */
  predicate Trimmed(capacities: set<string>) {
    forall c :: c in capacities ==> c != "" && !Text.PhpSpace(c[0]) && !Text.PhpSpace(c[|c| - 1])
  }

  lemma SaveCapacityKeepsTrimmed(t: Tables, raw: Option<string>)
    requires Trimmed(t.capacities)
    ensures Trimmed(SaveCapacity(t, raw).1.capacities)
  {
  }

  /** Repeating a call that was answered leaves the set as it is and answers 'exists'. */
  lemma SaveCapacityIdempotent(t: Tables, raw: Option<string>)
    requires SaveCapacity(t, raw).0 != Required
    ensures var t1 := SaveCapacity(t, raw).1;
      SaveCapacity(t1, raw) == (AlreadyExists, t1)
  {
  }
}
