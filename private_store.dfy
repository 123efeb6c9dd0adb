/** The per-thread private-variable store of a thread descriptor: the `pri_var`
    list of `{key, value}` nodes and the four calls pthread_addvar,
    pthread_delvar, pthread_setvar and pthread_getvar that work on it. */
module PrivateStore {
  import opened Wrappers
  import opened Errno

  /** A key is the address of the caller's `int` variable; 0 stands for NULL. */
  type Key = nat

  const NULL: Key := 0

  /** What pthread_addvar returns when the store already holds the maximum
      number of variables. */
  const FULL: int := -1

  /** One node of the list, without its `next` link. */
  datatype Entry = Entry(key: Key, value: int)

  /** Return code of a store call together with the list it leaves behind. */
  datatype Outcome = Outcome(code: int, entries: seq<Entry>)

  /** Return code of pthread_getvar together with what `*value` holds after it. */
  datatype Read = Read(code: int, value: int)

  /** Position of the first node whose key is `k`, scanning from the head. */
  function KeyIndex(s: seq<Entry>, k: Key): (r: Option<nat>)
    ensures r.Some? ==> r.value < |s| && s[r.value].key == k
    ensures r.Some? ==> forall j :: 0 <= j < r.value ==> s[j].key != k
    ensures r.None? <==> forall j :: 0 <= j < |s| ==> s[j].key != k
  {
    if s == [] then None
    else if s[0].key == k then Some(0)
    else match KeyIndex(s[1..], k)
      case Some(i) => Some(i + 1)
      case None =>
        assert forall j :: 1 <= j < |s| ==> s[j] == s[1..][j - 1];
        None
  }

  /** The first node with key `k` is at `i` exactly when none before it has `k`. */
  lemma KeyIndexAt(s: seq<Entry>, k: Key, i: nat)
    requires i < |s| && s[i].key == k
    requires forall j :: 0 <= j < i ==> s[j].key != k
    ensures KeyIndex(s, k) == Some(i)
  {
  }

  ghost predicate UniqueKeys(s: seq<Entry>) {
    forall i, j :: 0 <= i < j < |s| ==> s[i].key != s[j].key
  }

  /** What every list a live thread carries satisfies: no NULL key, no key
      twice, and at most `capacity` nodes. */
  ghost predicate StoreInvariant(s: seq<Entry>, capacity: nat) {
    && (forall i :: 0 <= i < |s| ==> s[i].key != NULL)
    && UniqueKeys(s)
    && |s| <= capacity
  }

  /** pthread_addvar(thread, pvar) with `*pvar == pointee`: the handle check,
      the NULL check, the first node of an empty list, the overwrite of an
      existing key, the refusal at capacity and the append at the tail. */
  function AddVarResult(live: bool, s: seq<Entry>, key: Key, pointee: int, capacity: nat): Outcome {
    if !live then Outcome(ESRCH, s)
    else if key == NULL then Outcome(EINVAL, s)
    else if s == [] then Outcome(0, [Entry(key, pointee)])
    else match KeyIndex(s, key)
      case Some(i) => Outcome(0, s[i := Entry(key, pointee)])
      case None =>
        if |s| == capacity then Outcome(FULL, s)
        else Outcome(0, s + [Entry(key, pointee)])
  }

  /** pthread_delvar(thread, pvar): unlinks the first node with the key. */
  function DelVarResult(live: bool, s: seq<Entry>, key: Key): Outcome {
    if !live then Outcome(ESRCH, s)
    else if key == NULL || s == [] then Outcome(EINVAL, s)
    else match KeyIndex(s, key)
      case Some(i) => Outcome(0, s[..i] + s[i + 1..])
      case None => Outcome(EINVAL, s)
  }

  /** pthread_setvar(thread, pvar, value): overwrites the value of the first
      node with the key. */
  function SetVarResult(live: bool, s: seq<Entry>, key: Key, value: int): Outcome {
    if !live then Outcome(ESRCH, s)
    else if key == NULL then Outcome(EINVAL, s)
    else match KeyIndex(s, key)
      case Some(i) => Outcome(0, s[i := Entry(key, value)])
      case None => Outcome(EINVAL, s)
  }

  /** pthread_getvar(thread, pvar, value) where `*value` held `prior` before
      the call. */
  function GetVarResult(live: bool, s: seq<Entry>, key: Key, prior: int): Read {
    if !live then Read(ESRCH, prior)
    else if key == NULL then Read(EINVAL, prior)
    else match KeyIndex(s, key)
      case Some(i) => Read(0, s[i].value)
      case None => Read(EINVAL, prior)
  }

  /** The `pri_var` list of one thread descriptor. */
  class PrivateVars {
    /** THREAD_PRIVATE_VAR_SIZE, the most nodes one list may hold. */
    const capacity: nat
    /** False once the descriptor fails the INVALID_TD_P check. */
    var live: bool
    /** The nodes from `pd->pri_var` onwards, head first. */
    var entries: seq<Entry>

    ghost predicate Valid()
      reads this
    {
      capacity >= 1 && StoreInvariant(entries, capacity)
    }

    constructor (capacity: nat)
      requires capacity >= 1
      ensures Valid() && live && entries == [] && this.capacity == capacity
    {
      this.capacity := capacity;
      live := true;
      entries := [];
    }

    /** pthread_addvar, with the counting walk of lines 646-653. */
    method AddVar(key: Key, pointee: int) returns (code: int)
      requires Valid()
      modifies this`entries
      ensures Valid()
      ensures Outcome(code, entries) == AddVarResult(live, old(entries), key, pointee, capacity)
    {
      AddVarKeepsInvariant(live, entries, key, pointee, capacity);
      if !live {
        return ESRCH;
      }
      if key == NULL {
        return EINVAL;
      }
      if entries == [] {
        entries := [Entry(key, pointee)];
        return 0;
      }
      var i := 0;
      while i < |entries|
        invariant 0 <= i <= |entries|
        invariant forall j :: 0 <= j < i ==> entries[j].key != key
      {
        if entries[i].key == key {
          entries := entries[i := Entry(key, pointee)];
          return 0;
        }
        i := i + 1;
      }
      if i == capacity {
        return FULL;
      }
      entries := entries + [Entry(key, pointee)];
      return 0;
    }

    /** pthread_delvar. `pt` is the index of the node visited last (-1 for
        NULL); once the walk ends it is always the tail, so the test of line
        710 always yields EINVAL. */
    method DelVar(key: Key) returns (code: int)
      requires Valid()
      modifies this`entries
      ensures Valid()
      ensures Outcome(code, entries) == DelVarResult(live, old(entries), key)
    {
      DelVarKeepsInvariant(live, entries, key, capacity);
      if !live {
        return ESRCH;
      }
      if key == NULL || entries == [] {
        return EINVAL;
      }
      ghost var s := entries;
      var pt := -1;
      var p := 0;
      while p < |entries|
        invariant entries == s
        invariant 0 <= p <= |entries|
        invariant pt == p - 1
        invariant forall j :: 0 <= j < p ==> entries[j].key != key
      {
        if entries[p].key == key {
          KeyIndexAt(s, key, p);
          if pt == -1 {
            // delete the head
            if p + 1 == |entries| {
              entries := [];
            } else {
              entries := entries[1..];
            }
          } else {
            if p + 1 == |entries| {
              entries := entries[..p];
            } else {
              entries := entries[..p] + entries[p + 1..];
            }
          }
          assert entries == s[..p] + s[p + 1..];
          return 0;
        }
        pt := p;
        p := p + 1;
      }
      code := if pt + 1 == |entries| then EINVAL else 0;
    }

    /** pthread_setvar. */
    method SetVar(key: Key, value: int) returns (code: int)
      requires Valid()
      modifies this`entries
      ensures Valid()
      ensures Outcome(code, entries) == SetVarResult(live, old(entries), key, value)
    {
      SetVarKeepsInvariant(live, entries, key, value, capacity);
      if !live {
        return ESRCH;
      }
      if key == NULL {
        return EINVAL;
      }
      var p := 0;
      while p < |entries|
        invariant 0 <= p <= |entries|
        invariant forall j :: 0 <= j < p ==> entries[j].key != key
      {
        if entries[p].key == key {
          entries := entries[p := Entry(key, value)];
          return 0;
        }
        p := p + 1;
      }
      return EINVAL;
    }

    /** pthread_getvar: `prior` is what `*value` held before the call; the
        store itself is left as it is. */
    method GetVar(key: Key, prior: int) returns (code: int, value: int)
      ensures Read(code, value) == GetVarResult(live, entries, key, prior)
    {
      value := prior;
      if !live {
        return ESRCH, value;
      }
      if key == NULL {
        return EINVAL, value;
      }
      var p := 0;
      while p < |entries|
        invariant 0 <= p <= |entries|
        invariant forall j :: 0 <= j < p ==> entries[j].key != key
      {
        if entries[p].key == key {
          value := entries[p].value;
          return 0, value;
        }
        p := p + 1;
      }
      return EINVAL, value;
    }
  }

  /** Adding keeps keys non-NULL and unique and the list within capacity. */
  lemma AddVarKeepsInvariant(live: bool, s: seq<Entry>, key: Key, pointee: int, capacity: nat)
    requires capacity >= 1 && StoreInvariant(s, capacity)
    ensures StoreInvariant(AddVarResult(live, s, key, pointee, capacity).entries, capacity)
  {
  }

  /** Deleting keeps keys non-NULL and unique and the list within capacity. */
  lemma DelVarKeepsInvariant(live: bool, s: seq<Entry>, key: Key, capacity: nat)
    requires StoreInvariant(s, capacity)
    ensures StoreInvariant(DelVarResult(live, s, key).entries, capacity)
  {
  }

  /** Setting keeps keys non-NULL and unique and the list within capacity. */
  lemma SetVarKeepsInvariant(live: bool, s: seq<Entry>, key: Key, value: int, capacity: nat)
    requires StoreInvariant(s, capacity)
    ensures StoreInvariant(SetVarResult(live, s, key, value).entries, capacity)
  {
  }

  /** An existing key has its value overwritten in place: the same node
      position, the same length, every other node untouched. */
  lemma AddVarOverwritesExisting(s: seq<Entry>, key: Key, pointee: int, capacity: nat)
    requires key != NULL && KeyIndex(s, key).Some?
    ensures var r := AddVarResult(true, s, key, pointee, capacity);
      && r.code == 0
      && |r.entries| == |s|
      && r.entries[KeyIndex(s, key).value] == Entry(key, pointee)
      && forall j :: 0 <= j < |s| && j != KeyIndex(s, key).value ==> r.entries[j] == s[j]
  {
  }

  /** A new key is appended at the tail while there is room; at capacity the
      call returns -1 and the list is left as it was. */
  lemma AddVarNewKey(s: seq<Entry>, key: Key, pointee: int, capacity: nat)
    requires key != NULL && KeyIndex(s, key).None?
    requires capacity >= 1 && |s| <= capacity
    ensures var r := AddVarResult(true, s, key, pointee, capacity);
      && (|s| < capacity ==> r == Outcome(0, s + [Entry(key, pointee)]))
      && (|s| == capacity ==> r == Outcome(FULL, s))
  {
  }

  /** Two adds of one key, then a get: the get sees the second value and the
      second add does not change the length. */
  lemma {:induction false} AddAddGet(s: seq<Entry>, key: Key, v1: int, v2: int, prior: int, capacity: nat)
    requires capacity >= 1 && StoreInvariant(s, capacity)
    requires key != NULL
    ensures var r1 := AddVarResult(true, s, key, v1, capacity);
      var r2 := AddVarResult(true, r1.entries, key, v2, capacity);
      r1.code == 0 ==>
        && r2.code == 0
        && |r2.entries| == |r1.entries|
        && GetVarResult(true, r2.entries, key, prior) == Read(0, v2)
  {
    var r1 := AddVarResult(true, s, key, v1, capacity);
    if r1.code == 0 {
      KeyPresentAfterAdd(s, key, v1, capacity);
      var i := KeyIndex(r1.entries, key).value;
      var r2 := AddVarResult(true, r1.entries, key, v2, capacity);
      assert r2.entries == r1.entries[i := Entry(key, v2)];
      KeyIndexAt(r2.entries, key, i);
    }
  }

  /** After a successful add the key is in the list. */
  lemma KeyPresentAfterAdd(s: seq<Entry>, key: Key, pointee: int, capacity: nat)
    requires key != NULL
    requires AddVarResult(true, s, key, pointee, capacity).code == 0
    ensures KeyIndex(AddVarResult(true, s, key, pointee, capacity).entries, key).Some?
  {
    var t := AddVarResult(true, s, key, pointee, capacity).entries;
    if s == [] {
      assert t[0].key == key;
    } else if KeyIndex(s, key).Some? {
      assert t[KeyIndex(s, key).value].key == key;
    } else {
      assert t[|s|].key == key;
    }
  }

  /** A successful delete removes exactly the node with the key, whether it
      is the head, a middle node or the tail, keeps the others in order, and
      leaves the key absent. */
  lemma DelVarRemovesExactly(s: seq<Entry>, key: Key)
    requires UniqueKeys(s)
    requires key != NULL && KeyIndex(s, key).Some?
    ensures var i := KeyIndex(s, key).value;
      var r := DelVarResult(true, s, key);
      && r == Outcome(0, s[..i] + s[i + 1..])
      && KeyIndex(r.entries, key).None?
  {
  }

  /** Deleting one key twice fails the second time with EINVAL and changes
      nothing, and a get after the delete fails with EINVAL too. */
  lemma DelVarTwiceFails(s: seq<Entry>, key: Key, prior: int)
    requires UniqueKeys(s)
    ensures var r1 := DelVarResult(true, s, key);
      r1.code == 0 ==>
        && DelVarResult(true, r1.entries, key) == Outcome(EINVAL, r1.entries)
        && GetVarResult(true, r1.entries, key, prior) == Read(EINVAL, prior)
  {
  }

  /** pthread_delvar fails with EINVAL on a NULL key, an empty list or an
      absent key, and then leaves the list as it was. */
  lemma DelVarFailures(s: seq<Entry>, key: Key)
    requires key == NULL || s == [] || KeyIndex(s, key).None?
    ensures DelVarResult(true, s, key) == Outcome(EINVAL, s)
  {
  }

  /** pthread_setvar succeeds exactly when the key is present; it then
      changes only that node's value, and it never inserts. */
  lemma SetVarChangesOnlyMatch(s: seq<Entry>, key: Key, value: int)
    requires key != NULL
    ensures var r := SetVarResult(true, s, key, value);
      && (r.code == 0 <==> exists j :: 0 <= j < |s| && s[j].key == key)
      && |r.entries| == |s|
      && (forall j :: 0 <= j < |s| ==> r.entries[j].key == s[j].key)
      && (r.code != 0 ==> r == Outcome(EINVAL, s))
      && (r.code == 0 ==> forall j :: 0 <= j < |s| && j != KeyIndex(s, key).value ==> r.entries[j] == s[j])
  {
  }

  /** A set followed by a get of the same key reads the value set. */
  lemma {:induction false} SetThenGet(s: seq<Entry>, key: Key, value: int, prior: int)
    requires key != NULL
    ensures var r := SetVarResult(true, s, key, value);
      r.code == 0 ==> GetVarResult(true, r.entries, key, prior) == Read(0, value)
  {
    var r := SetVarResult(true, s, key, value);
    if r.code == 0 {
      var i := KeyIndex(s, key).value;
      KeyIndexAt(r.entries, key, i);
    }
  }

  /** An invalid handle is reported as ESRCH by all four calls before the
      key is looked at, and nothing changes. */
  lemma InvalidHandleFirst(s: seq<Entry>, key: Key, value: int, prior: int, capacity: nat)
    ensures AddVarResult(false, s, key, value, capacity) == Outcome(ESRCH, s)
    ensures DelVarResult(false, s, key) == Outcome(ESRCH, s)
    ensures SetVarResult(false, s, key, value) == Outcome(ESRCH, s)
    ensures GetVarResult(false, s, key, prior) == Read(ESRCH, prior)
  {
  }
}
