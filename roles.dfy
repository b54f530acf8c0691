/** The role directory behind IRoleService: a duplicate-free list of role
    names kept by the role store, with create, exists, ensure-all and list.

    Every operation first asks the store whether a name exists and creates
    it only when it does not. The store's create may fail; the caller
    supplies its outcome (a flag for one create, the set of names the store
    refuses for ensure-all). The ghost field `calls` records the calls made
    on the store, which is what the unit tests observe. */
module Roles {

  /** A call made on the underlying role store. */
  datatype StoreCall = ExistsCall(name: string) | CreateCall(name: string)

  predicate Distinct(s: seq<string>) {
    forall i, j :: 0 <= i < j < |s| ==> s[i] != s[j]
  }

  function Elems(s: seq<string>): set<string> {
    set x | x in s
  }

  // Specification of one create.

  /** The role list after creating `name` when the store's create reports
      `stored`. */
  function AfterCreate(roles: seq<string>, name: string, stored: bool): (r: seq<string>)
    ensures Distinct(roles) ==> Distinct(r)
    ensures Elems(r) == if name !in roles && stored then Elems(roles) + {name} else Elems(roles)
  {
    if name !in roles && stored then roles + [name] else roles
  }

  /** The store calls of one create: one existence check, then one create
      only when the name is absent. */
  function CreateCalls(roles: seq<string>, name: string): seq<StoreCall> {
    [ExistsCall(name)] + (if name in roles then [] else [CreateCall(name)])
  }

  // Specification of ensure-all, name by name from the left.

  function EnsureAll(roles: seq<string>, names: seq<string>, rejected: set<string>): (r: seq<string>)
    ensures roles <= r
    ensures |r| <= |roles| + |names|
    decreases |names|
  {
    if names == [] then roles
    else EnsureAll(AfterCreate(roles, names[0], names[0] !in rejected), names[1..], rejected)
  }

  function EnsureCalls(roles: seq<string>, names: seq<string>, rejected: set<string>): (r: seq<StoreCall>)
    ensures |names| <= |r| <= 2 * |names|
    ensures forall c :: c in r ==> c.name in names
    decreases |names|
  {
    if names == [] then []
    else
      var next := AfterCreate(roles, names[0], names[0] !in rejected);
      CreateCalls(roles, names[0]) + EnsureCalls(next, names[1..], rejected)
  }

  /** One step of ensure-all from position i of the requested names. */
  lemma {:induction false} EnsureStep(roles: seq<string>, names: seq<string>, i: nat, rejected: set<string>)
    requires i < |names|
    ensures EnsureAll(roles, names[i..], rejected)
            == EnsureAll(AfterCreate(roles, names[i], names[i] !in rejected), names[i + 1..], rejected)
    ensures EnsureCalls(roles, names[i..], rejected)
            == CreateCalls(roles, names[i])
               + EnsureCalls(AfterCreate(roles, names[i], names[i] !in rejected), names[i + 1..], rejected)
  {
    assert names[i..][0] == names[i] && names[i..][1..] == names[i + 1..];
  }

  lemma ElemsAppend(a: seq<string>, b: seq<string>)
    ensures Elems(a + b) == Elems(a) + Elems(b)
  {
  }

  /** The names the store was asked to create, in order. */
  function CreatedNames(calls: seq<StoreCall>): seq<string> {
    if calls == [] then []
    else (if calls[0].CreateCall? then [calls[0].name] else []) + CreatedNames(calls[1..])
  }

  lemma {:induction false} CreatedNamesAppend(a: seq<StoreCall>, b: seq<StoreCall>)
    ensures CreatedNames(a + b) == CreatedNames(a) + CreatedNames(b)
  {
    if a == [] {
      assert a + b == b;
    } else {
      var ab := a + b;
      assert ab[0] == a[0] && ab[1..] == a[1..] + b;
      CreatedNamesAppend(a[1..], b);
    }
  }

  /** Ensure-all keeps the existing roles untouched and in place, and adds
      names after them without duplicates. */
  lemma {:induction false} EnsureAllExtends(roles: seq<string>, names: seq<string>, rejected: set<string>)
    requires Distinct(roles)
    ensures roles <= EnsureAll(roles, names, rejected)
    ensures Distinct(EnsureAll(roles, names, rejected))
    decreases |names|
  {
    if names != [] {
      var next := AfterCreate(roles, names[0], names[0] !in rejected);
      EnsureAllExtends(next, names[1..], rejected);
    }
  }

  /** The roles after ensure-all are the old roles plus every requested
      name the store did not refuse: every such name is present, and no
      other name is added. */
  lemma {:induction false} EnsureAllElems(roles: seq<string>, names: seq<string>, rejected: set<string>)
    ensures Elems(EnsureAll(roles, names, rejected)) == Elems(roles) + (Elems(names) - rejected)
    decreases |names|
  {
    if names != [] {
      var next := AfterCreate(roles, names[0], names[0] !in rejected);
      EnsureAllElems(next, names[1..], rejected);
      assert Elems(names) == {names[0]} + Elems(names[1..]);
    }
  }

  /** When every requested name is present or refused, ensure-all changes
      nothing. */
  lemma {:induction false} EnsureAllNoOp(roles: seq<string>, names: seq<string>, rejected: set<string>)
    requires forall n :: n in names ==> n in roles || n in rejected
    ensures EnsureAll(roles, names, rejected) == roles
    decreases |names|
  {
    if names != [] {
      assert names[0] in names;
      assert forall n :: n in names[1..] ==> n in names;
      EnsureAllNoOp(roles, names[1..], rejected);
    }
  }

  /** Ensure-all is idempotent: a second call with the same names gives the
      same roles as the first. */
  lemma EnsureAllIdempotent(roles: seq<string>, names: seq<string>, rejected: set<string>)
    ensures EnsureAll(EnsureAll(roles, names, rejected), names, rejected) == EnsureAll(roles, names, rejected)
  {
    var once := EnsureAll(roles, names, rejected);
    EnsureAllElems(roles, names, rejected);
    forall n | n in names ensures n in once || n in rejected {
      assert n in Elems(names);
      if n !in rejected {
        assert n in Elems(once);
      }
    }
    EnsureAllNoOp(once, names, rejected);
  }

  /** Ensure-all asks the store to create exactly the requested names that
      were absent, and never a name that was present. */
  lemma {:induction false} EnsureCreatesOnlyMissing(roles: seq<string>, names: seq<string>, rejected: set<string>)
    ensures Elems(CreatedNames(EnsureCalls(roles, names, rejected))) == Elems(names) - Elems(roles)
    decreases |names|
  {
    if names != [] {
      var n := names[0];
      var next := AfterCreate(roles, n, n !in rejected);
      var head := if n in roles then [] else [n];
      var rest := CreatedNames(EnsureCalls(next, names[1..], rejected));
      EnsureCreatesOnlyMissing(next, names[1..], rejected);
      CreatedStep(roles, names, rejected);
      ElemsAppend(head, rest);
      assert Elems(names) == {n} + Elems(names[1..]);
      assert Elems(head) == if n in Elems(roles) then {} else {n};
      MissingStep(n, Elems(names[1..]), Elems(roles), Elems(next), Elems(rest));
    }
  }

  /** The set algebra of one ensure-all step: `next` is the role set after
      the first name, `created` what the rest creates. */
  lemma MissingStep(n: string, later: set<string>, before: set<string>, next: set<string>, created: set<string>)
    requires next == before || (n !in before && next == before + {n})
    requires created == later - next
    ensures (if n in before then {} else {n}) + created == ({n} + later) - before
  {
  }

  /** The names created by ensure-all: the first name when absent, then
      those created for the rest. */
  lemma {:induction false} CreatedStep(roles: seq<string>, names: seq<string>, rejected: set<string>)
    requires names != []
    ensures CreatedNames(EnsureCalls(roles, names, rejected))
            == (if names[0] in roles then [] else [names[0]])
               + CreatedNames(EnsureCalls(AfterCreate(roles, names[0], names[0] !in rejected), names[1..], rejected))
  {
    var next := AfterCreate(roles, names[0], names[0] !in rejected);
    CreatedNamesAppend(CreateCalls(roles, names[0]), EnsureCalls(next, names[1..], rejected));
    CreateCallsCreate(roles, names[0]);
  }

  lemma CreateCallsCreate(roles: seq<string>, name: string)
    ensures CreatedNames(CreateCalls(roles, name)) == if name in roles then [] else [name]
  {
    var c := CreateCalls(roles, name);
    assert CreatedNames(c) == CreatedNames(c[1..]);
    if name in roles {
      assert c[1..] == [];
    } else {
      assert c[1..] == [CreateCall(name)];
      assert c[1..][1..] == [];
      assert CreatedNames(c[1..]) == [name] + CreatedNames(c[1..][1..]);
    }
  }

  /** When the store accepts every create, the names ensure-all appends are
      exactly the names it asked the store to create, in that order. */
  lemma {:induction false} EnsureAppendsCreated(roles: seq<string>, names: seq<string>, rejected: set<string>)
    requires forall i :: 0 <= i < |names| ==> names[i] !in rejected
    ensures EnsureAll(roles, names, rejected) == roles + CreatedNames(EnsureCalls(roles, names, rejected))
    decreases |names|
  {
    if names == [] {
      assert roles + [] == roles;
    } else {
      assert forall i :: 0 <= i < |names[1..]| ==> names[1..][i] == names[i + 1];
      assert names[0] !in rejected;
      var next := AfterCreate(roles, names[0], true);
      var head := if names[0] in roles then [] else [names[0]];
      var calls := EnsureCalls(next, names[1..], rejected);
      var rest := CreatedNames(calls);
      EnsureAppendsCreated(next, names[1..], rejected);
      CreatedNamesAppend(CreateCalls(roles, names[0]), calls);
      CreateCallsCreate(roles, names[0]);
      assert EnsureAll(roles, names, rejected) == EnsureAll(next, names[1..], rejected);
      assert EnsureCalls(roles, names, rejected) == CreateCalls(roles, names[0]) + calls;
      assert next == roles + head;
      AppendAssociative(roles, head, rest);
    }
  }

  lemma AppendAssociative<T>(a: seq<T>, b: seq<T>, c: seq<T>)
    ensures (a + b) + c == a + (b + c)
  {
  }

  /** When the store accepts every create, ensure-all asks it to create each
      missing name exactly once, even a name requested more than once. */
  lemma EnsureCreatesEachOnce(roles: seq<string>, names: seq<string>, rejected: set<string>)
    requires Distinct(roles)
    requires forall i :: 0 <= i < |names| ==> names[i] !in rejected
    ensures Distinct(CreatedNames(EnsureCalls(roles, names, rejected)))
  {
    var created := CreatedNames(EnsureCalls(roles, names, rejected));
    EnsureAppendsCreated(roles, names, rejected);
    EnsureAllExtends(roles, names, rejected);
    var all := roles + created;
    forall i, j | 0 <= i < j < |created| ensures created[i] != created[j] {
      assert created[i] == all[|roles| + i] && created[j] == all[|roles| + j];
    }
  }

  /** The role directory. */
  class RoleService {
    var roles: seq<string>
    ghost var calls: seq<StoreCall>

    ghost predicate Valid()
      reads this
    {
      Distinct(roles)
    }

    /** A directory over a store that already holds `existing`. */
    constructor (existing: seq<string>)
      requires Distinct(existing)
      ensures Valid() && roles == existing && calls == []
    {
      roles := existing;
      calls := [];
    }

    /** CreateRoleAsync: true iff the role was absent and the store created
        it. A present role is left alone, with no create call. */
    method CreateRole(name: string, storeSucceeds: bool) returns (created: bool)
      requires Valid()
      modifies this
      ensures Valid()
      ensures created <==> name !in old(roles) && storeSucceeds
      ensures roles == AfterCreate(old(roles), name, storeSucceeds)
      ensures calls == old(calls) + CreateCalls(old(roles), name)
    {
      var present := RoleExists(name);
      if present {
        created := false;
      } else {
        calls := calls + [CreateCall(name)];
        if storeSucceeds {
          roles := roles + [name];
        }
        created := storeSucceeds;
      }
    }

    /** RoleExistsAsync: membership in the role list. */
    method RoleExists(name: string) returns (b: bool)
      modifies this`calls
      ensures b <==> name in roles
      ensures calls == old(calls) + [ExistsCall(name)]
    {
      calls := calls + [ExistsCall(name)];
      b := name in roles;
    }

    /** EnsureRolesCreatedAsync: create, name by name, those that do not
        exist yet. The store refuses the names in `rejected`; a refused
        create is ignored. */
    method EnsureRolesCreated(names: seq<string>, rejected: set<string>)
      requires Valid()
      modifies this
      ensures Valid()
      ensures roles == EnsureAll(old(roles), names, rejected)
      ensures calls == old(calls) + EnsureCalls(old(roles), names, rejected)
    {
      var i := 0;
      while i < |names|
        invariant 0 <= i <= |names|
        invariant Valid()
        invariant EnsureAll(roles, names[i..], rejected) == EnsureAll(old(roles), names, rejected)
        invariant calls + EnsureCalls(roles, names[i..], rejected)
                  == old(calls) + EnsureCalls(old(roles), names, rejected)
      {
        ghost var before, callsBefore := roles, calls;
        EnsureStep(roles, names, i, rejected);
        var created := CreateRole(names[i], names[i] !in rejected);
        AppendAssociative(callsBefore, CreateCalls(before, names[i]), EnsureCalls(roles, names[i + 1..], rejected));
        i := i + 1;
      }
      assert names[i..] == [];
    }

    /** GetAllRolesAsync: every stored name, once each. */
    method GetAllRoles() returns (r: seq<string>)
      requires Valid()
      ensures |r| == |roles|
      ensures Distinct(r)
      ensures forall n :: n in r <==> n in roles
    {
      r := roles;
    }
  }
}
