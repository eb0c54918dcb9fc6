/** The constant registry (`CopyConsts`): generated accessor source keyed by
    the constant's name, filled by `add_const` during one build step. */
module Registry {
  import opened Wrappers
  import opened Hex
  import opened Accessor

  /** `CopyConsts(HashMap<String, String>)`: name to generated source. The
      map is unordered, as the hash map's iteration order is unspecified. */
  datatype CopyConsts = CopyConsts(entries: map<string, string>)

  /** `CopyConsts::new`: a registry with no constants. */
  function New(): (r: CopyConsts)
    ensures forall f :: f !in r.entries
  {
    CopyConsts(map[])
  }

  /** `add_const`: stores the accessor generated for `bs` under `fname`,
      replacing any earlier entry of that name and leaving every other
      entry alone. The type name is not checked against the bytes. */
  function AddConst(reg: CopyConsts, fname: string, typename: string, bs: seq<Byte>): (r: CopyConsts)
    ensures r.entries.Keys == reg.entries.Keys + {fname}
    ensures r.entries[fname] == CreateConstantFunc(fname, typename, bs)
    ensures forall g :: g in reg.entries && g != fname ==> r.entries[g] == reg.entries[g]
  {
    CopyConsts(reg.entries[fname := CreateConstantFunc(fname, typename, bs)])
  }

  /** Adding twice under one name keeps only the second text. */
  lemma AddConstOverwrites(reg: CopyConsts, fname: string,
                           t1: string, v1: seq<Byte>, t2: string, v2: seq<Byte>)
    ensures AddConst(AddConst(reg, fname, t1, v1), fname, t2, v2) == AddConst(reg, fname, t2, v2)
  {
    var x1 := CreateConstantFunc(fname, t1, v1);
    var x2 := CreateConstantFunc(fname, t2, v2);
    assert reg.entries[fname := x1][fname := x2] == reg.entries[fname := x2];
  }

  /** Registrations under different names are independent of each other's
      order. */
  lemma AddConstCommutes(reg: CopyConsts, f1: string, t1: string, v1: seq<Byte>,
                         f2: string, t2: string, v2: seq<Byte>)
    requires f1 != f2
    ensures AddConst(AddConst(reg, f1, t1, v1), f2, t2, v2)
         == AddConst(AddConst(reg, f2, t2, v2), f1, t1, v1)
  {
    var x1 := CreateConstantFunc(f1, t1, v1);
    var x2 := CreateConstantFunc(f2, t2, v2);
    assert reg.entries[f1 := x1][f2 := x2] == reg.entries[f2 := x2][f1 := x1];
  }

  /** One `add_const(fname, typename, &value)` call of a build script. */
  datatype Registration = Registration(name: string, typeName: string, bytes: seq<Byte>)

  /** The names a sequence of registrations uses. */
  function Names(rs: seq<Registration>): (ns: set<string>)
    ensures forall i :: 0 <= i < |rs| ==> rs[i].name in ns
  {
    if rs == [] then {} else Names(rs[..|rs| - 1]) + {rs[|rs| - 1].name}
  }

  /** No later registration in `rs` reuses the name of `rs[i]`. */
  predicate IsLastOfName(rs: seq<Registration>, i: int)
    requires 0 <= i < |rs|
  {
    forall j :: i < j < |rs| ==> rs[j].name != rs[i].name
  }

  /** Dropping a later registration keeps `rs[i]` the last of its name. */
  lemma LastOfNameInPrefix(rs: seq<Registration>, i: int)
    requires 0 <= i < |rs| - 1 && IsLastOfName(rs, i)
    ensures IsLastOfName(rs[..|rs| - 1], i)
  {
    var init := rs[..|rs| - 1];
    forall j | i < j < |init|
      ensures init[j].name != init[i].name
    {
      assert init[j] == rs[j];
    }
  }

  /** A build script's calls to `add_const`, in order. Each name ends up
      holding the accessor of its last registration; names never
      registered keep what they had. */
  function AddAll(reg: CopyConsts, rs: seq<Registration>): (r: CopyConsts)
    ensures r.entries.Keys == reg.entries.Keys + Names(rs)
    ensures forall i :: 0 <= i < |rs| && IsLastOfName(rs, i) ==>
      r.entries[rs[i].name] == CreateConstantFunc(rs[i].name, rs[i].typeName, rs[i].bytes)
    ensures forall g :: g in reg.entries && g !in Names(rs) ==> r.entries[g] == reg.entries[g]
    decreases |rs|
  {
    if rs == [] then reg
    else
      var init := rs[..|rs| - 1];
      var last := rs[|rs| - 1];
      var prev := AddAll(reg, init);
      var r := AddConst(prev, last.name, last.typeName, last.bytes);
      forall i | 0 <= i < |rs| - 1 && IsLastOfName(rs, i)
        ensures rs[i].name in r.entries
             && r.entries[rs[i].name] == CreateConstantFunc(rs[i].name, rs[i].typeName, rs[i].bytes)
      {
        assert init[i] == rs[i];
        assert rs[i].name in prev.entries;
        LastOfNameInPrefix(rs, i);
      }
      r
  }

  /** The documented build script registers one constant into a new
      registry; its entry reads back as the registered bytes. */
  lemma NewThenAdd(fname: string, typename: string, bs: seq<Byte>)
    ensures AddConst(New(), fname, typename, bs).entries.Keys == {fname}
    ensures ReadBack(fname, typename, AddConst(New(), fname, typename, bs).entries[fname]) == Some(bs)
  {
    ReadBackCreate(fname, typename, bs);
  }
}
