/** The record-building pattern every parser of the source shares: entries
    are written one after another into an empty object with
    `obj[key] = value`, so a later entry for a key replaces an earlier one
    and skipped entries leave no trace. */
module LastWins {
  import opened Wrappers

  /** The record obtained by writing the present entries in order. */
  function Assign<K, V>(entries: seq<Option<(K, V)>>): map<K, V>
    decreases |entries|
  {
    if |entries| == 0 then map[]
    else
      var m := Assign(entries[..|entries| - 1]);
      match entries[|entries| - 1]
      case None => m
      case Some(kv) => m[kv.0 := kv.1]
  }

  /** Entry `i` writes key `k`. */
  ghost predicate Writes<K, V>(entries: seq<Option<(K, V)>>, i: int, k: K) {
    0 <= i < |entries| && entries[i].Some? && entries[i].value.0 == k
  }

  /** Entry `i` is the last one that writes key `k`. */
  ghost predicate LastWrite<K, V>(entries: seq<Option<(K, V)>>, i: int, k: K) {
    Writes(entries, i, k) && forall j | i < j < |entries| :: !Writes(entries, j, k)
  }

  /** A key is in the record exactly when some entry writes it, and it holds
      the value of the last entry that does. */
  lemma {:induction false} AssignSpec<K, V>(entries: seq<Option<(K, V)>>)
    ensures forall k :: k in Assign(entries) <==> exists i :: Writes(entries, i, k)
    ensures forall i, k | LastWrite(entries, i, k) ::
              k in Assign(entries) && Assign(entries)[k] == entries[i].value.1
    decreases |entries|
  {
    if |entries| > 0 {
      var n := |entries| - 1;
      var init := entries[..n];
      var m := Assign(init);
      AssignSpec(init);
      assert Assign(entries) == if entries[n].Some? then m[entries[n].value.0 := entries[n].value.1] else m;
      forall k ensures k in Assign(entries) <==> exists i :: Writes(entries, i, k) {
        if k in Assign(entries) {
          if entries[n].Some? && entries[n].value.0 == k {
            assert Writes(entries, n, k);
          } else {
            assert k in m;
            var i :| Writes(init, i, k);
            assert entries[i] == init[i];
            assert Writes(entries, i, k);
          }
        }
        if exists i :: Writes(entries, i, k) {
          var i :| Writes(entries, i, k);
          if i < n { assert Writes(init, i, k); }
        }
      }
      forall i, k | LastWrite(entries, i, k)
        ensures k in Assign(entries) && Assign(entries)[k] == entries[i].value.1
      {
        if i < n {
          assert !Writes(entries, n, k);
          assert LastWrite(init, i, k) by {
            forall j | i < j < n ensures !Writes(init, j, k) {
              assert !Writes(entries, j, k);
            }
          }
        }
      }
    }
  }

  /** A property every written entry has, every field of the record has. */
  lemma {:induction false} AssignKeeps<K, V>(entries: seq<Option<(K, V)>>, ok: (K, V) -> bool)
    requires forall i | 0 <= i < |entries| && entries[i].Some? :: ok(entries[i].value.0, entries[i].value.1)
    ensures forall k | k in Assign(entries) :: ok(k, Assign(entries)[k])
    decreases |entries|
  {
    if |entries| > 0 {
      AssignKeeps(entries[..|entries| - 1], ok);
    }
  }

  /** Entries that write no key leave the record empty. */
  lemma AssignNothing<K, V>(entries: seq<Option<(K, V)>>)
    requires forall i | 0 <= i < |entries| :: entries[i].None?
    ensures Assign(entries) == map[]
  {
    AssignSpec(entries);
  }
}
