/** iot_jobs_job_list.c: the queue of job ids, kept in a fixed 5 by 64 array of characters. */
module JobList {
  const MAX_AWS_JOB_LIST_SIZE: nat := 5
  const MAX_AWS_JOB_ID_SIZE: nat := 64
  const NUL := '\0'

  /** What fits a slot: fewer than 64 characters and no NUL among them. */
  predicate IsId(id: string) {
    |id| < MAX_AWS_JOB_ID_SIZE && NUL !in id
  }

  /** is_exist_job_id compares only as many characters as the new id has. */
  predicate Known(queue: seq<string>, id: string) {
    id == [] || exists i :: 0 <= i < |queue| && id <= queue[i]
  }

  /** What the five slots hold when ids are queued. */
  function Slots(ids: seq<string>): (slots: seq<string>)
    requires |ids| <= MAX_AWS_JOB_LIST_SIZE
    ensures |slots| == MAX_AWS_JOB_LIST_SIZE
  {
    ids + seq(MAX_AWS_JOB_LIST_SIZE - |ids|, i => [])
  }

  /** The slots when those before i have moved down by one: slot i - 1 is free. */
  function Sliding(slots: seq<string>, i: nat): (sliding: seq<string>)
    requires 1 <= i <= |slots|
    ensures |sliding| == |slots|
  {
    slots[1..i] + [[]] + slots[i..]
  }

  lemma SlideOne(slots: seq<string>, i: nat)
    requires 1 <= i < |slots|
    ensures Sliding(slots, i)[i - 1 := Sliding(slots, i)[i]][i := []] == Sliding(slots, i + 1)
  {
    var a, b := Sliding(slots, i)[i - 1 := slots[i]][i := []], Sliding(slots, i + 1);
    assert Sliding(slots, i)[i] == slots[i];
    forall k | 0 <= k < |slots|
      ensures a[k] == b[k]
    {}
  }

  lemma SlideAll(ids: seq<string>)
    requires |ids| <= MAX_AWS_JOB_LIST_SIZE
    ensures Sliding(Slots(ids), MAX_AWS_JOB_LIST_SIZE) == Slots(if ids == [] then [] else ids[1..])
  {}

  class Queue {
    const list: array2<char>
    /** The ids in the queue, oldest first. */
    ghost var ids: seq<string>

    /** Slot i holds id, and NULs behind it. */
    ghost predicate Holds(i: nat, id: string)
      requires i < list.Length0
      reads list
    {
      && |id| < list.Length1 && NUL !in id
      && (forall j :: 0 <= j < |id| ==> list[i, j] == id[j])
      && (forall j :: |id| <= j < list.Length1 ==> list[i, j] == NUL)
    }

    ghost predicate HoldAll(slots: seq<string>)
      reads list
    {
      && list.Length0 == |slots| == MAX_AWS_JOB_LIST_SIZE && list.Length1 == MAX_AWS_JOB_ID_SIZE
      && forall i :: 0 <= i < MAX_AWS_JOB_LIST_SIZE ==> Holds(i, slots[i])
    }

    /** The ids in the queue fill the first slots, the others are empty. */
    ghost predicate Valid()
      reads this, list
    {
      |ids| <= MAX_AWS_JOB_LIST_SIZE && [] !in ids && HoldAll(Slots(ids))
    }

    constructor ()
      ensures Valid() && ids == [] && fresh(list) && list.Length0 == 5 && list.Length1 == 64
    {
      list := new char[MAX_AWS_JOB_LIST_SIZE, MAX_AWS_JOB_ID_SIZE]((i, j) => NUL);
      ids := [];
    }

    /** strlen of a slot. */
    method StrLen(i: nat, ghost id: string) returns (length: nat)
      requires i < list.Length0 && Holds(i, id)
      ensures length == |id|
    {
      length := 0;
      while list[i, length] != NUL
        invariant length <= |id|
        decreases |id| - length
      {
        length := length + 1;
      }
    }

    /** strncmp of a slot with the first characters of an id: whether they are equal. */
    method StrNCmpEqual(i: nat, id: string, ghost held: string) returns (equal: bool)
      requires i < list.Length0 && Holds(i, held) && IsId(id)
      ensures equal <==> id <= held
    {
      var j := 0;
      while j < |id|
        invariant j <= |id| && j <= |held| && id[..j] == held[..j]
      {
        if list[i, j] != id[j] {
          assert j < |held| ==> held[j] != id[j];
          return false;
        }
        assert id[j] in id;
        j := j + 1;
      }
      assert id[..j] == id;
      return true;
    }

    /** is_empty_job_id_list, which answers true when the list is NOT empty; its caller reads it that way. */
    method IsEmptyJobIdList() returns (nonEmpty: bool)
      requires Valid()
      ensures nonEmpty <==> ids != []
    {
      var jobIdStrLength := StrLen(0, Slots(ids)[0]);
      nonEmpty := jobIdStrLength > 0;
    }

    method IsExistJobId(id: string) returns (exist: bool)
      requires Valid() && IsId(id)
      ensures exist <==> Known(ids, id)
    {
      for i := 0 to MAX_AWS_JOB_LIST_SIZE
        invariant forall k :: 0 <= k < i && k < |ids| ==> !(id <= ids[k])
        invariant i > 0 ==> id != []
      {
        var equal := StrNCmpEqual(i, id, Slots(ids)[i]);
        if equal {
          return true;
        }
      }
      return false;
    }

    method GetAvailableIndex() returns (found: bool, index: nat)
      requires Valid()
      ensures found <==> |ids| < MAX_AWS_JOB_LIST_SIZE
      ensures found ==> index == |ids|
    {
      index := 0;
      for i := 0 to MAX_AWS_JOB_LIST_SIZE
        invariant i <= |ids|
      {
        var jobIdStrLength := StrLen(i, Slots(ids)[i]);
        if jobIdStrLength == 0 {
          return true, i;
        }
      }
      return false, 0;
    }

    method GetFirstJobId() returns (found: bool, id: string)
      requires Valid()
      ensures found <==> ids != []
      ensures found ==> id == ids[0]
    {
      found := IsEmptyJobIdList();
      id := [];
      if found {
        var length := StrLen(0, Slots(ids)[0]);
        for j := 0 to length
          invariant id == ids[0][..j]
        {
          id := id + [list[0, j]];
        }
      }
    }

    /** memset of a slot. */
    method ClearSlot(i: nat, ghost slots: seq<string>)
      requires i < MAX_AWS_JOB_LIST_SIZE && HoldAll(slots)
      modifies list
      ensures HoldAll(slots[i := []])
    {
      forall j | 0 <= j < list.Length1 {
        list[i, j] := NUL;
      }
      assert forall k :: 0 <= k < MAX_AWS_JOB_LIST_SIZE && k != i ==> old(Holds(k, slots[k]));
    }

    /** memcpy of a slot to the one before it. */
    method CopyDown(i: nat, ghost slots: seq<string>)
      requires 1 <= i < MAX_AWS_JOB_LIST_SIZE && HoldAll(slots)
      modifies list
      ensures HoldAll(slots[i - 1 := slots[i]])
    {
      forall j | 0 <= j < list.Length1 {
        list[i - 1, j] := list[i, j];
      }
      assert forall k :: 0 <= k < MAX_AWS_JOB_LIST_SIZE ==> old(Holds(k, slots[k]));
    }

    method DelFirstJobId() returns (ok: bool)
      requires Valid()
      modifies this, list
      ensures Valid() && ok
      ensures ids == if old(ids) == [] then [] else old(ids)[1..]
    {
      ghost var slots := Slots(ids);
      ClearSlot(0, slots);
      assert slots[0 := []] == Sliding(slots, 1);
      for i := 1 to MAX_AWS_JOB_LIST_SIZE
        invariant ids == old(ids) && HoldAll(Sliding(slots, i))
      {
        CopyDown(i, Sliding(slots, i));
        ClearSlot(i, Sliding(slots, i)[i - 1 := Sliding(slots, i)[i]]);
        SlideOne(slots, i);
      }
      SlideAll(ids);
      if ids != [] {
        ids := ids[1..];
      }
      return true;
    }

    /** strncpy of an id to an empty slot, and the NUL behind it. */
    method WriteSlot(i: nat, id: string, ghost slots: seq<string>)
      requires i < MAX_AWS_JOB_LIST_SIZE && HoldAll(slots) && slots[i] == [] && IsId(id)
      modifies list
      ensures HoldAll(slots[i := id])
    {
      for j := 0 to |id|
        invariant forall k, m :: 0 <= k < MAX_AWS_JOB_LIST_SIZE && 0 <= m < MAX_AWS_JOB_ID_SIZE ==>
                    list[k, m] == if k == i && m < j then id[m] else old(list[k, m])
      {
        list[i, j] := id[j];
      }
      list[i, |id|] := NUL;
      assert forall k :: 0 <= k < MAX_AWS_JOB_LIST_SIZE ==> old(Holds(k, slots[k]));
    }

    /** add_job_id. Adding the empty id takes no slot, although it reports success. */
    method AddJobId(id: string) returns (ok: bool)
      requires Valid() && IsId(id)
      modifies this, list
      ensures Valid()
      ensures ok <==> |old(ids)| < MAX_AWS_JOB_LIST_SIZE
      ensures ids == if ok && id != [] then old(ids) + [id] else old(ids)
    {
      var found, index := GetAvailableIndex();
      if !found {
        return false;
      }
      ghost var slots := Slots(ids);
      ClearSlot(index, slots);
      assert slots[index := []] == slots;
      WriteSlot(index, id, slots);
      if id != [] {
        ids := ids + [id];
        assert slots[index := id] == Slots(ids);
      } else {
        assert slots[index := id] == slots;
      }
      return true;
    }
  }
}
