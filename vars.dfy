/** The per-request variable store of the polling API
    (socialpoll/api/vars.go): a map from request to that request's own
    map from key to value. The request identity is an opaque type with
    equality, the Go `interface{}` value a type parameter, and nil an
    absent `Option`. */
module Vars {
  import opened Wrappers

  /** The value `GetVar` reads: `vars[r][key]`, which Go evaluates to nil
      when the request or the key is missing (a nil map reads as empty). */
  function Lookup<Request, Value>(vars: map<Request, map<string, Value>>, r: Request, key: string): Option<Value>
  {
    if r in vars && key in vars[r] then Some(vars[r][key]) else None
  }

  /** The package-level `vars` map. `isNil` is Go's nil map, which holds
      no entries. */
  class Store<Request(==), Value> {
    var vars: map<Request, map<string, Value>>
    var isNil: bool

    ghost predicate Valid()
      reads this
    {
      isNil ==> vars == map[]
    }

    /** The zero value of the package variable: a nil map. */
    constructor ()
      ensures Valid() && isNil && vars == map[]
    {
      vars := map[];
      isNil := true;
    }

    /** Creates the outer map if it is nil and installs a fresh empty map
        for `r`, discarding whatever `r` held before; other requests keep
        their entries. */
    method OpenVars(r: Request)
      requires Valid()
      modifies this
      ensures Valid() && !isNil
      ensures vars == old(vars)[r := map[]]
      ensures forall key :: Lookup(vars, r, key) == None
      ensures forall r', key :: r' != r ==> Lookup(vars, r', key) == Lookup(old(vars), r', key)
    {
      if isNil {
        vars := map[];
        isNil := false;
      }
      vars := vars[r := map[]];
    }

    /** Deletes the entry of `r`; deleting a missing entry, or from a nil
        map, changes nothing. */
    method CloseVars(r: Request)
      requires Valid()
      modifies this
      ensures Valid() && isNil == old(isNil)
      ensures vars == old(vars) - {r}
      ensures r !in vars
      ensures forall key :: Lookup(vars, r, key) == None
      ensures forall r', key :: r' != r ==> Lookup(vars, r', key) == Lookup(old(vars), r', key)
      ensures r !in old(vars) ==> vars == old(vars)
    {
      vars := vars - {r};
    }

    /** Reads `vars[r][key]`: the stored value, or nil when `r` was never
        opened (or was closed) or has no such key. Reads only. */
    method GetVar(r: Request, key: string) returns (value: Option<Value>)
      requires Valid()
      ensures value.Some? <==> r in vars && key in vars[r]
      ensures value.Some? ==> value.value == vars[r][key]
      ensures isNil ==> value == None
    {
      if r in vars && key in vars[r] {
        value := Some(vars[r][key]);
      } else {
        value := None;
      }
    }

    /** Assigns `vars[r][key] = value`. Go panics when `r` has no inner map
        (it was never opened, or was closed), so the caller must have
        opened it. An existing value under `key` is overwritten; every
        other (request, key) pair is left as it was. */
    method SetVar(r: Request, key: string, value: Value)
      requires Valid()
      requires r in vars
      modifies this
      ensures Valid() && isNil == old(isNil)
      ensures vars == old(vars)[r := old(vars)[r][key := value]]
      ensures Lookup(vars, r, key) == Some(value)
      ensures forall r', key' :: (r', key') != (r, key) ==> Lookup(vars, r', key') == Lookup(old(vars), r', key')
    {
      vars := vars[r := vars[r][key := value]];
    }
  }
}
