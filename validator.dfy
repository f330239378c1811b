/** internal/validator: an error map keyed by field name in which the first
    message recorded for a field wins, and two list helpers. Every field
    validator of the system writes through `Checked`. */
module Validation {

  /** Validator.Errors: field name to the message reported for it. */
  type Errors = map<string, string>

  /** Validator.IsValid on an error map: nothing has been reported. */
  function NoErrors(errors: Errors): (r: bool)
    ensures r <==> errors == map[]
  {
    assert errors != map[] ==> exists k :: k in errors.Keys;
    |errors| == 0
  }

  /** The error map after Validator.AddError(key, message). */
  function WithError(errors: Errors, key: string, message: string): (r: Errors)
    ensures r.Keys == errors.Keys + {key}
    ensures forall k | k in errors :: r[k] == errors[k]
    ensures key !in errors ==> r[key] == message
  {
    if key in errors then errors else errors[key := message]
  }

  /** The error map after Validator.CheckAdd(condition, key, message). */
  function Checked(errors: Errors, condition: bool, key: string, message: string): (r: Errors)
    ensures errors.Keys <= r.Keys <= errors.Keys + {key}
    ensures forall k | k in errors :: r[k] == errors[k]
    ensures condition ==> r == errors
    ensures !condition ==> key in r
    ensures !condition && key !in errors ==> r[key] == message
  {
    if condition then errors else WithError(errors, key, message)
  }

  /** Recording an error twice is the same as recording it once. */
  lemma WithErrorIdempotent(errors: Errors, key: string, message: string)
    ensures WithError(WithError(errors, key, message), key, message) == WithError(errors, key, message)
  {
  }

  /** An error map only grows: once a key has a message it keeps it. */
  predicate Extends(later: Errors, earlier: Errors)
  {
    earlier.Keys <= later.Keys && forall k | k in earlier :: later[k] == earlier[k]
  }

  class Validator {
    var errors: Errors

    /** NewValidator: no errors yet. */
    constructor ()
      ensures errors == map[] && IsValid()
    {
      errors := map[];
    }

    function IsValid(): (r: bool)
      reads this
      ensures r <==> errors == map[]
    {
      NoErrors(errors)
    }

    /** First write wins: an existing message for `key` is never replaced. */
    method AddError(key: string, message: string)
      modifies this
      ensures errors == WithError(old(errors), key, message)
      ensures Extends(errors, old(errors)) && key in errors
    {
      if key !in errors {
        errors := errors[key := message];
      }
    }

    method CheckAdd(condition: bool, key: string, message: string)
      modifies this
      ensures errors == Checked(old(errors), condition, key, message)
      ensures Extends(errors, old(errors))
    {
      if !condition {
        AddError(key, message);
      }
    }
  }

  /** validator.ValueInList, a linear search of the list. */
  function ValueInList<T(==)>(value: T, list: seq<T>): (r: bool)
    ensures r <==> exists i :: 0 <= i < |list| && list[i] == value
  {
    if list == [] then false
    else if list[0] == value then true
    else
      var r := ValueInList(value, list[1..]);
      assert r ==> exists i :: 1 <= i < |list| && list[i] == value by {
        if r {
          var j :| 0 <= j < |list[1..]| && list[1..][j] == value;
          assert list[j + 1] == value;
        }
      }
      r
  }

  /** No value occurs at two positions of the list. */
  predicate Distinct<T(==)>(list: seq<T>)
  {
    forall i, j | 0 <= i < j < |list| :: list[i] != list[j]
  }

  /** validator.ListUnique: walks the list remembering what it has seen and
      stops at the first repeat. */
  method ListUnique<T(==)>(list: seq<T>) returns (r: bool)
    ensures r <==> Distinct(list)
  {
    var seen: set<T> := {};
    var n := 0;
    while n < |list|
      invariant 0 <= n <= |list|
      invariant seen == set i | 0 <= i < n :: list[i]
      invariant Distinct(list[..n])
    {
      if list[n] in seen {
        assert !Distinct(list) by {
          var i :| 0 <= i < n && list[i] == list[n];
        }
        return false;
      }
      seen := seen + {list[n]};
      n := n + 1;
    }
    assert list[..n] == list;
    return true;
  }
}
