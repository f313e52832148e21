/**
 * Per-task local storage (futures-core/src/task/data.rs): keys declared by
 * `task_local!`, the type-erased map a task owns, lazy initialisation on
 * first access through `LocalKey::get_mut`, and the identity hasher the map
 * is built with.
 *
 * Type identities (`TypeId`) are abstract naturals. The map stores each
 * value together with a runtime type tag, so the reinterpretation of the
 * stored box as the key's type becomes a checked comparison of tags.
 */
module TaskData {
  import opened Core

  /** The identity of a declared key: the `TypeId` of the private struct a `task_local!` declaration introduces. */
  type KeyId = nat

  /** The identity of a stored value type `T`. */
  type TypeTag = nat

  /** A type-erased owned value (`Box<Opaque>`), carrying the tag of the type it was stored as. */
  datatype Opaque<P> = Opaque(tag: TypeTag, payload: P)

  /** Reading a value under a type other than the one it was stored as. */
  datatype CastError = TypeMismatch(expected: TypeTag, found: TypeTag)

  /**
   * `LocalKey<T>`. Both of its function pointers point at stateless
   * functions, so each is modelled by the one value it always returns:
   * `key` for `__key`, `init` for `__init`; `ty` is the tag of `T`.
   */
  datatype LocalKey<P> = LocalKey(key: KeyId, ty: TypeTag, init: P)

  /** `static NAME: T = e` as written inside `task_local!`. */
  datatype Declaration<P> = Declaration(name: string, ty: TypeTag, expr: P)

  /**
   * `task_local!` for one declaration: `site` is the identity of the struct
   * `__A` that this expansion, and no other, declares.
   */
  function TaskLocal<P>(d: Declaration<P>, site: KeyId): (k: LocalKey<P>)
    // `__key` returns the identity of this expansion's own struct, the same on every call
    ensures k.key == site && k.ty == d.ty
    // the first access on a fresh task hands out the declared expression
    ensures Read(map[], k) == Ok(d.expr)
  {
    LocalKey(site, d.ty, d.expr)
  }

  /**
   * Expanding `task_local!` once per declaration, with identities minted in
   * declaration order from `next` on.
   */
  function DeclareKeys<P>(decls: seq<Declaration<P>>, next: KeyId): (keys: seq<LocalKey<P>>)
    ensures |keys| == |decls|
    // the initializer returns the declared expression, at the declared type
    ensures forall i :: 0 <= i < |keys| ==> keys[i].init == decls[i].expr && keys[i].ty == decls[i].ty
    ensures forall i :: 0 <= i < |keys| ==> next <= keys[i].key < next + |decls|
    // two declarations never share an identity, even when their types agree
    ensures forall i, j :: 0 <= i < j < |keys| ==> keys[i].key != keys[j].key
  {
    if decls == [] then []
    else [TaskLocal(decls[0], next)] + DeclareKeys(decls[1..], next + 1)
  }

  /** Every identity among `keys` stands for exactly one value type. */
  ghost predicate OneTypePerIdentity<P>(keys: seq<LocalKey<P>>)
  {
    forall i, j :: 0 <= i < |keys| && 0 <= j < |keys| && keys[i].key == keys[j].key ==> keys[i].ty == keys[j].ty
  }

  /** The type each identity among `keys` is declared with. */
  function Registry<P>(keys: seq<LocalKey<P>>): map<KeyId, TypeTag>
  {
    if keys == [] then map[]
    else Registry(keys[..|keys| - 1])[keys[|keys| - 1].key := keys[|keys| - 1].ty]
  }

  /** The registry of a set of keys agrees with the type of every one of them. */
  lemma {:induction false} RegistryAgrees<P>(keys: seq<LocalKey<P>>)
    requires OneTypePerIdentity(keys)
    ensures forall i :: 0 <= i < |keys| ==> keys[i].key in Registry(keys) && Registry(keys)[keys[i].key] == keys[i].ty
    ensures forall id :: id in Registry(keys) ==> exists i :: 0 <= i < |keys| && keys[i].key == id
  {
    if keys != [] {
      var front := keys[..|keys| - 1];
      assert OneTypePerIdentity(front) by {
        forall i, j | 0 <= i < |front| && 0 <= j < |front| && front[i].key == front[j].key
          ensures front[i].ty == front[j].ty
        {
          assert front[i] == keys[i] && front[j] == keys[j];
        }
      }
      RegistryAgrees(front);
      forall i | 0 <= i < |keys|
        ensures keys[i].key in Registry(keys) && Registry(keys)[keys[i].key] == keys[i].ty
      {
        if i < |keys| - 1 {
          assert front[i] == keys[i];
        }
      }
      forall id | id in Registry(keys)
        ensures exists i :: 0 <= i < |keys| && keys[i].key == id
      {
        if id != keys[|keys| - 1].key {
          var i :| 0 <= i < |front| && front[i].key == id;
          assert keys[i] == front[i];
        }
      }
    }
  }

  /** Keys minted by `DeclareKeys` satisfy the type-consistency requirement. */
  lemma {:induction false} DeclaredKeysConsistent<P>(decls: seq<Declaration<P>>, next: KeyId)
    ensures OneTypePerIdentity(DeclareKeys(decls, next))
  {
  }

  /** The contents of a `LocalMap`: key identity to type-erased value. */
  type Entries<P> = map<KeyId, Opaque<P>>

  /**
   * `data.entry(key).or_insert_with(|| Box::new((self.__init)()))`, as the
   * map it leaves behind.
   */
  function OrInsertWith<P>(m: Entries<P>, k: LocalKey<P>): (m': Entries<P>)
    // the accessed identity is present afterwards, and it is the only one added
    ensures m'.Keys == m.Keys + {k.key}
    // an existing entry, this key's included, is left as it was
    ensures forall id :: id in m ==> m'[id] == m[id]
    // a missing entry is created with exactly the initializer's value, at the key's type
    ensures k.key !in m ==> m'[k.key] == Opaque(k.ty, k.init)
  {
    if k.key in m then m else m[k.key := Opaque(k.ty, k.init)]
  }

  /** The checked stand-in for reinterpreting the stored box as the key's type. */
  function Downcast<P>(o: Opaque<P>, ty: TypeTag): (r: Result<P, CastError>)
    ensures r.Ok? <==> o.tag == ty
    ensures r.Ok? ==> r.value == o.payload
    ensures r.Err? ==> r.error.expected == ty && r.error.found == o.tag
  {
    if o.tag == ty then Ok(o.payload) else Err(TypeMismatch(ty, o.tag))
  }

  /**
   * `get_mut` as written: the stored payload is handed out as the key's
   * type without regard to the type it was stored at.
   */
  function UncheckedRead<P>(m: Entries<P>, k: LocalKey<P>): (r: P)
    ensures k.key !in m ==> r == k.init
    ensures k.key in m ==> r == m[k.key].payload
  {
    OrInsertWith(m, k)[k.key].payload
  }

  /** The value `get_mut` hands out for key `k` on a map holding `m`. */
  function Read<P>(m: Entries<P>, k: LocalKey<P>): (r: Result<P, CastError>)
    // first access: the initializer's value
    ensures k.key !in m ==> r == Ok(k.init)
    // later accesses: the stored value, provided it was stored at the key's type
    ensures k.key in m ==> (r.Ok? <==> m[k.key].tag == k.ty)
    ensures k.key in m && r.Ok? ==> r.value == m[k.key].payload
  {
    Downcast(OrInsertWith(m, k)[k.key], k.ty)
  }

  /**
   * A write of `v` through the `&mut T` that `get_mut` handed out for `k`:
   * such a reference exists only for a present entry stored at type `T`.
   */
  function StoreThrough<P>(m: Entries<P>, k: LocalKey<P>, v: P): (m': Entries<P>)
    requires k.key in m && m[k.key].tag == k.ty
    ensures m'.Keys == m.Keys
    ensures Read(m', k) == Ok(v)
    ensures forall id :: id in m && id != k.key ==> m'[id] == m[id]
  {
    m[k.key := Opaque(k.ty, v)]
  }

  /** `LocalMap`: the storage one task owns. */
  class LocalMap<P> {
    var entries: Entries<P>

    /** `local_map()`: a fresh map has no entries. */
    constructor ()
      ensures entries == map[]
    {
      entries := map[];
    }

    /**
     * `LocalKey::get_mut`: look the key's identity up, create the entry with
     * the initializer if it is absent, and hand back the stored value read
     * at the key's type.
     */
    method GetMut(k: LocalKey<P>) returns (r: Result<P, CastError>)
      modifies this
      ensures entries == OrInsertWith(old(entries), k)
      ensures r == Read(old(entries), k)
      ensures old(k.key in entries) ==> entries == old(entries)
      ensures old(k.key !in entries) ==> entries == old(entries)[k.key := Opaque(k.ty, k.init)] && r == Ok(k.init)
    {
      entries := OrInsertWith(entries, k);
      r := Downcast(entries[k.key], k.ty);
    }

    /** Assigning `v` through the reference `GetMut(k)` handed out. */
    method Store(k: LocalKey<P>, v: P)
      requires k.key in entries && entries[k.key].tag == k.ty
      modifies this
      ensures entries == StoreThrough(old(entries), k, v)
      ensures Read(entries, k) == Ok(v)
    {
      entries := entries[k.key := Opaque(k.ty, v)];
    }
  }

  /**
   * Task-local data is per task: a value one task stores under a key is
   * seen by that task's next access, while another task's first access to
   * the same key still gets the initializer's value.
   */
  method PerTaskValues<P>(k: LocalKey<P>, v: P) returns (mine: Result<P, CastError>, theirs: Result<P, CastError>)
    ensures mine == Ok(v)
    ensures theirs == Ok(k.init)
  {
    var task1 := new LocalMap<P>();
    var task2 := new LocalMap<P>();
    var first := task1.GetMut(k);
    assert first == Ok(k.init);
    task1.Store(k, v);
    theirs := task2.GetMut(k);
    mine := task1.GetMut(k);
  }

  /** `u8` and `u64`. */
  newtype u8 = x: int | 0 <= x < 0x100
  newtype u64 = x: int | 0 <= x < 0x1_0000_0000_0000_0000

  /** What a call that may panic did. */
  datatype Outcome = Done | Panicked(message: string)

  /** `IdHasher`: a hasher whose hash of a single `u64` is that `u64`. */
  class IdHasher {
    var id: u64
    /** Every value passed to `write_u64` so far, oldest first. */
    ghost var written: seq<u64>

    /** `id` holds the last value written, or 0 before any write. */
    ghost predicate Valid()
      reads this
    {
      id == if written == [] then 0 else written[|written| - 1]
    }

    /** `IdHasher::default()`. */
    constructor Default()
      ensures Valid() && written == []
      ensures id == 0
    {
      id := 0;
      written := [];
    }

    /** `Hasher::write` on raw bytes: always panics, whatever the bytes. */
    method Write(bytes: seq<u8>) returns (outcome: Outcome)
      ensures outcome == Panicked("can only hash u64")
    {
      outcome := Panicked("can only hash u64");
    }

    /** `Hasher::write_u64`: replaces whatever was written before. */
    method WriteU64(u: u64)
      requires Valid()
      modifies this
      ensures Valid() && written == old(written) + [u]
      ensures id == u && Finish() == u
    {
      id := u;
      written := written + [u];
    }

    /** `Hasher::finish`: the last value passed to `write_u64`, or 0 if there was none. */
    function Finish(): (h: u64)
      requires Valid()
      reads this
      ensures h == if written == [] then 0 else written[|written| - 1]
    {
      id
    }
  }

  /**
   * Hashing one 64-bit identity with a fresh `IdHasher`, as the map does
   * for each `TypeId`: the hash is the identity, so distinct identities
   * never share a hash.
   */
  method HashId(t: u64) returns (h: u64)
    ensures h == t
  {
    var hasher := new IdHasher.Default();
    hasher.WriteU64(t);
    h := hasher.Finish();
  }
}
