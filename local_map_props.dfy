/**
 * What a task sees over many accesses to its local storage: a run is a
 * sequence of `get_mut` calls on one map, each optionally followed by a
 * write through the reference it handed out. Proved here: each key's
 * initializer runs at most once per map, accesses under one identity never
 * disturb another, a write is what the next access returns, and declared
 * keys never read a value back at the wrong type.
 */
module LocalMapProps {
  import opened Core
  import opened TaskData

  /** One `key.get_mut(cx)`, then possibly `*r = v` through its result. */
  datatype Access<P> = Access(key: LocalKey<P>, write: Option<P>)

  /** The map after one access. A write happens only through a reference, that is, when the read succeeded. */
  function Apply<P>(m: Entries<P>, a: Access<P>): Entries<P>
  {
    var m1 := OrInsertWith(m, a.key);
    if a.write.Some? && m1[a.key.key].tag == a.key.ty then StoreThrough(m1, a.key, a.write.value) else m1
  }

  /** The map after a whole run. */
  function Run<P>(m: Entries<P>, run: seq<Access<P>>): Entries<P>
    decreases |run|
  {
    if run == [] then m else Run(Apply(m, run[0]), run[1..])
  }

  /** What each `get_mut` of a run hands out, in order. */
  function Reads<P>(m: Entries<P>, run: seq<Access<P>>): (rs: seq<Result<P, CastError>>)
    ensures |rs| == |run|
    decreases |run|
  {
    if run == [] then [] else [Read(m, run[0].key)] + Reads(Apply(m, run[0]), run[1..])
  }

  /** How many accesses of a run call the initializer of a key with identity `id`. */
  function InitRuns<P>(m: Entries<P>, run: seq<Access<P>>, id: KeyId): nat
    decreases |run|
  {
    if run == [] then 0
    else (if run[0].key.key == id && id !in m then 1 else 0) + InitRuns(Apply(m, run[0]), run[1..], id)
  }

  /** No access of the run goes through identity `id`. */
  ghost predicate Untouched<P>(run: seq<Access<P>>, id: KeyId)
  {
    forall i :: 0 <= i < |run| ==> run[i].key.key != id
  }

  /** Every stored entry sits at the type the registry gives its identity. */
  ghost predicate WellTyped<P>(m: Entries<P>, reg: map<KeyId, TypeTag>)
  {
    forall id :: id in m ==> id in reg && m[id].tag == reg[id]
  }

  /** Every access of the run uses a key of the type the registry gives its identity. */
  ghost predicate Fits<P>(run: seq<Access<P>>, reg: map<KeyId, TypeTag>)
  {
    forall i :: 0 <= i < |run| ==> run[i].key.key in reg && reg[run[i].key.key] == run[i].key.ty
  }

  /** One access keeps existing entries present and only ever adds its own identity. */
  lemma {:induction false} ApplyKeys<P>(m: Entries<P>, a: Access<P>)
    ensures Apply(m, a).Keys == m.Keys + {a.key.key}
  {
  }

  /** Entries present before a run stay present. */
  lemma {:induction false} RunKeepsKeys<P>(m: Entries<P>, run: seq<Access<P>>)
    ensures m.Keys <= Run(m, run).Keys
    decreases |run|
  {
    if run != [] {
      ApplyKeys(m, run[0]);
      RunKeepsKeys(Apply(m, run[0]), run[1..]);
    }
  }

  /**
   * The initializer of a key runs at most once per map, never when the
   * entry already exists, and exactly once when the entry was missing and
   * the run accesses it.
   */
  lemma {:induction false} InitAtMostOnce<P>(m: Entries<P>, run: seq<Access<P>>, id: KeyId)
    ensures InitRuns(m, run, id) <= 1
    ensures id in m ==> InitRuns(m, run, id) == 0
    ensures InitRuns(m, run, id) == 1 <==> id !in m && !Untouched(run, id)
    decreases |run|
  {
    if run != [] {
      var m1 := Apply(m, run[0]);
      ApplyKeys(m, run[0]);
      InitAtMostOnce(m1, run[1..], id);
      if id !in m && run[0].key.key != id {
        // the run touches `id` after its first access exactly when the whole run does
        assert Untouched(run, id) <==> Untouched(run[1..], id) by {
          if Untouched(run[1..], id) {
            forall i | 0 <= i < |run| ensures run[i].key.key != id {
              if i > 0 { assert run[i] == run[1..][i - 1]; }
            }
          }
        }
      }
    }
  }

  /** A run that never goes through identity `id` leaves its entry exactly as it was, present or not. */
  lemma {:induction false} KeyIsolation<P>(m: Entries<P>, run: seq<Access<P>>, id: KeyId)
    requires Untouched(run, id)
    ensures id in Run(m, run) <==> id in m
    ensures id in m ==> Run(m, run)[id] == m[id]
    decreases |run|
  {
    if run != [] {
      assert Untouched(run[1..], id) by {
        forall i | 0 <= i < |run[1..]| ensures run[1..][i].key.key != id {
          assert run[1..][i] == run[i + 1];
        }
      }
      ApplyKeys(m, run[0]);
      KeyIsolation(Apply(m, run[0]), run[1..], id);
    }
  }

  /**
   * A value written through the reference `get_mut(k)` handed out is what
   * the next `get_mut(k)` returns, however many accesses to other
   * identities come in between.
   */
  lemma {:induction false} WritePersists<P>(m: Entries<P>, k: LocalKey<P>, v: P, between: seq<Access<P>>)
    requires Read(m, k).Ok?
    requires Untouched(between, k.key)
    ensures Read(Run(Apply(m, Access(k, Some(v))), between), k) == Ok(v)
  {
    var m1 := Apply(m, Access(k, Some(v)));
    assert Read(m1, k) == Ok(v);
    KeyIsolation(m1, between, k.key);
  }

  /** A run of well-fitting accesses keeps the map well typed, and every value it reads back is at the right type. */
  lemma {:induction false} RunTypeSafe<P>(m: Entries<P>, run: seq<Access<P>>, reg: map<KeyId, TypeTag>)
    requires WellTyped(m, reg)
    requires Fits(run, reg)
    ensures WellTyped(Run(m, run), reg)
    ensures forall i :: 0 <= i < |run| ==> Reads(m, run)[i].Ok?
    decreases |run|
  {
    if run != [] {
      var m1 := Apply(m, run[0]);
      assert WellTyped(m1, reg);
      assert Fits(run[1..], reg) by {
        forall i | 0 <= i < |run[1..]|
          ensures run[1..][i].key.key in reg && reg[run[1..][i].key.key] == run[1..][i].key.ty
        {
          assert run[1..][i] == run[i + 1];
        }
      }
      RunTypeSafe(m1, run[1..], reg);
      forall i | 0 <= i < |run| ensures Reads(m, run)[i].Ok? {
        if i > 0 { assert Reads(m, run)[i] == Reads(m1, run[1..])[i - 1]; }
      }
    }
  }

  /**
   * The cast is sound for keys declared by `task_local!`: on a fresh map,
   * any run over such keys reads every value back at the type it was stored
   * as, so the checked downcast never fails.
   */
  lemma {:induction false} DeclaredKeysTypeSafe<P>(decls: seq<Declaration<P>>, next: KeyId, run: seq<Access<P>>)
    requires forall i :: 0 <= i < |run| ==> run[i].key in DeclareKeys(decls, next)
    ensures forall i :: 0 <= i < |run| ==> Reads(map[], run)[i].Ok?
  {
    var keys := DeclareKeys(decls, next);
    DeclaredKeysConsistent(decls, next);
    RegistryAgrees(keys);
    var reg := Registry(keys);
    assert Fits(run, reg) by {
      forall i | 0 <= i < |run| ensures run[i].key.key in reg && reg[run[i].key.key] == run[i].key.ty {
        var j :| 0 <= j < |keys| && keys[j] == run[i].key;
      }
    }
    RunTypeSafe(map[], run, reg);
  }

  /**
   * Why the identity must determine the type: when two keys share an
   * identity but not a type, the second access finds a value stored at the
   * first key's type. Read unchecked, that value is handed out as the second
   * key's type; the checked read reports the mismatch instead.
   */
  lemma {:induction false} CollidingIdentitiesMismatch<P>(k1: LocalKey<P>, k2: LocalKey<P>)
    requires k1.key == k2.key && k1.ty != k2.ty
    ensures var m := Run(map[], [Access(k1, None)]);
      k2.key in m && m[k2.key].tag == k1.ty && UncheckedRead(m, k2) == k1.init
    ensures Reads(map[], [Access(k1, None), Access(k2, None)])[1] == Err(TypeMismatch(k2.ty, k1.ty))
  {
    var run := [Access(k1, None), Access(k2, None)];
    assert run[1..] == [Access(k2, None)];
    assert [Access(k1, None)][1..] == [];
  }
}
