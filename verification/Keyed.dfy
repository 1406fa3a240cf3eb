/**
 A list of records found by key, as the stores keep their credentials: a scan from the
 front, replacement in place, appending, and removal that moves the last record into the
 gap. With distinct keys it is a map, and these are its updates.
 */
module Keyed {
  import opened Wrappers
  import opened Bytes

  type Key = seq<Byte>

  function Find<T>(s: seq<T>, key: T -> Key, k: Key): (i: Option<nat>)
    ensures i.Some? ==> i.value < |s| && key(s[i.value]) == k
    ensures i.Some? ==> forall j :: 0 <= j < i.value ==> key(s[j]) != k
    ensures i.None? ==> forall j :: 0 <= j < |s| ==> key(s[j]) != k
  {
    if s == [] then None
    else if key(s[0]) == k then Some(0)
    else
      var rest := Find(s[1..], key, k);
      if rest.None? then None else Some(rest.value + 1)
  }

  predicate Distinct<T>(s: seq<T>, key: T -> Key)
  {
    forall i, j :: 0 <= i < j < |s| ==> key(s[i]) != key(s[j])
  }

  function Lookup<T>(s: seq<T>, key: T -> Key, k: Key): Option<T>
  {
    var i := Find(s, key, k);
    if i.None? then None else Some(s[i.value])
  }

  /** The last element takes the place of the removed one. */
  function SwapRemove<T>(s: seq<T>, i: nat): (r: seq<T>)
    requires i < |s|
    ensures |r| == |s| - 1
    ensures forall j :: 0 <= j < |r| ==> r[j] == if j == i then s[|s| - 1] else s[j]
  {
    s[i := s[|s| - 1]][..|s| - 1]
  }

  lemma LookupIs<T>(s: seq<T>, key: T -> Key, i: nat)
    requires Distinct(s, key) && i < |s|
    ensures Find(s, key, key(s[i])) == Some(i)
  {
  }

  /** Replacing the record of a key changes that key only. */
  lemma ReplaceIsUpdate<T>(s: seq<T>, key: T -> Key, i: nat, x: T, k: Key)
    requires Distinct(s, key) && i < |s| && key(x) == key(s[i])
    ensures Distinct(s[i := x], key)
    ensures Lookup(s[i := x], key, k) == if k == key(x) then Some(x) else Lookup(s, key, k)
  {
    var t := s[i := x];
    var was := Find(s, key, k);
    if k == key(x) {
      LookupIs(t, key, i);
    } else if was.Some? {
      LookupIs(t, key, was.value);
    }
  }

  /** Appending a record with a new key adds that key only. */
  lemma AppendIsInsert<T>(s: seq<T>, key: T -> Key, x: T, k: Key)
    requires Distinct(s, key) && Find(s, key, key(x)).None?
    ensures Distinct(s + [x], key)
    ensures Lookup(s + [x], key, k) == if k == key(x) then Some(x) else Lookup(s, key, k)
  {
    var t := s + [x];
    var was := Find(s, key, k);
    if k == key(x) {
      LookupIs(t, key, |s|);
    } else if was.Some? {
      LookupIs(t, key, was.value);
    }
  }

  /** Removing a record removes its key only. */
  lemma RemoveIsErase<T>(s: seq<T>, key: T -> Key, i: nat, k: Key)
    requires Distinct(s, key) && i < |s|
    ensures Distinct(SwapRemove(s, i), key)
    ensures Lookup(SwapRemove(s, i), key, k) == if k == key(s[i]) then None else Lookup(s, key, k)
  {
    var t := SwapRemove(s, i);
    var was := Find(s, key, k);
    if k != key(s[i]) && was.Some? {
      LookupIs(t, key, if was.value == |s| - 1 then i else was.value);
    }
  }
}
