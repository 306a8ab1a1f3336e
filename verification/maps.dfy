/**
  Maps built by a sequence of Python assignments `d[k] = v`: every key that is
  assigned is present, and a key holds the value of its last assignment.
 */
module Maps {
  import opened Wrappers

  /** Entry `i` is an assignment and no later assignment has the same key. */
  predicate LastFor<K(==), V>(entries: seq<Option<(K, V)>>, i: int)
    requires 0 <= i < |entries| && entries[i].Some?
  {
    forall j | i < j < |entries| :: entries[j].Some? ==> entries[j].value.0 != entries[i].value.0
  }

  /** The keys that `entries` assign. */
  function KeysOf<K(==), V>(entries: seq<Option<(K, V)>>): set<K> {
    set i | 0 <= i < |entries| && entries[i].Some? :: entries[i].value.0
  }

  /**
    Performs the assignments of `entries` in order on an empty map, skipping
    the `None` entries.
   */
  function Collect<K(==), V>(entries: seq<Option<(K, V)>>): (r: map<K, V>)
    ensures r.Keys == KeysOf(entries)
    ensures forall i | 0 <= i < |entries| && entries[i].Some? && LastFor(entries, i) ::
      r[entries[i].value.0] == entries[i].value.1
  {
    if |entries| == 0 then map[]
    else
      var last := entries[|entries| - 1];
      var init := Collect(entries[..|entries| - 1]);
      var r := if last.Some? then init[last.value.0 := last.value.1] else init;
      CollectStep(entries, init, r);
      r
  }

  /** One more assignment on top of the map built from all earlier ones. */
  lemma CollectStep<K, V>(entries: seq<Option<(K, V)>>, init: map<K, V>, r: map<K, V>)
    requires |entries| > 0
    requires init.Keys == KeysOf(entries[..|entries| - 1])
    requires forall i | 0 <= i < |entries| - 1 && entries[i].Some? && LastFor(entries[..|entries| - 1], i) ::
      init[entries[i].value.0] == entries[i].value.1
    requires var last := entries[|entries| - 1];
      r == if last.Some? then init[last.value.0 := last.value.1] else init
    ensures r.Keys == KeysOf(entries)
    ensures forall i | 0 <= i < |entries| && entries[i].Some? && LastFor(entries, i) ::
      r[entries[i].value.0] == entries[i].value.1
  {
    var n := |entries|;
    var prefix := entries[..n - 1];
    assert KeysOf(entries) == KeysOf(prefix) + (if entries[n - 1].Some? then {entries[n - 1].value.0} else {}) by {
      assert forall i | 0 <= i < n - 1 :: prefix[i] == entries[i];
    }
    forall i | 0 <= i < n && entries[i].Some? && LastFor(entries, i)
      ensures r[entries[i].value.0] == entries[i].value.1
    {
      if i < n - 1 {
        assert prefix[i] == entries[i];
        assert LastFor(prefix, i);
      }
    }
  }

  /** Some assignment at or after `i` to the same key is the last one. */
  lemma {:induction false} LastAssignmentExists<K, V>(entries: seq<Option<(K, V)>>, i: int)
    requires 0 <= i < |entries| && entries[i].Some?
    ensures exists j | i <= j < |entries| :: entries[j].Some? && entries[j].value.0 == entries[i].value.0 && LastFor(entries, j)
    decreases |entries| - i
  {
    if !LastFor(entries, i) {
      var j :| i < j < |entries| && entries[j].Some? && entries[j].value.0 == entries[i].value.0;
      LastAssignmentExists(entries, j);
    }
  }
}
