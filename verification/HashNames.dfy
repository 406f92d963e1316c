/**
  HashName: a persistent numbering of strings.  Two maps, linear probing over
  32-bit numbers, and a log of records that a restart reads back.
 */
module HashNames {
  const MAX_UINT32: nat := 0xFFFF_FFFF

  type uint32 = n: int | 0 <= n <= MAX_UINT32

  datatype Rec = Rec(str: string, num: uint32)

  datatype Names = Names(numToStr: map<uint32, string>, strToNum: map<string, uint32>, log: seq<Rec>)

  // ---------- the log

  /** The mapping a log stands for: later records win. */
  function Denote(log: seq<Rec>): map<string, uint32> {
    if log == [] then map[]
    else Denote(log[..|log| - 1])[log[|log| - 1].str := log[|log| - 1].num]
  }

  /** No string is recorded twice. */
  ghost predicate OneRecordEach(log: seq<Rec>) {
    forall i, j | 0 <= i < j < |log| :: log[i].str != log[j].str
  }

  lemma {:induction false} DenoteKeys(log: seq<Rec>)
    ensures forall s :: s in Denote(log) <==> exists i :: 0 <= i < |log| && log[i].str == s
  {
    if log != [] {
      var n := |log| - 1;
      DenoteKeys(log[..n]);
      forall s
        ensures s in Denote(log) <==> exists i :: 0 <= i < |log| && log[i].str == s
      {
        if s in Denote(log[..n]) {
          var i :| 0 <= i < n && log[..n][i].str == s;
          assert log[i].str == s;
        }
        if i :| 0 <= i < |log| && log[i].str == s && s != log[n].str {
          assert log[..n][i].str == s;
        }
        assert log[n].str == log[n].str;
      }
    }
  }

  lemma DenoteAppend(log: seq<Rec>, r: Rec)
    ensures Denote(log + [r]) == Denote(log)[r.str := r.num]
  {
    assert (log + [r])[..|log|] == log;
  }

  // ---------- the invariant

  /** The two maps are mutually inverse. */
  ghost predicate Inverse(a: map<uint32, string>, b: map<string, uint32>) {
    (forall n | n in a :: a[n] in b && b[a[n]] == n) && (forall s | s in b :: b[s] in a && a[b[s]] == s)
  }

  /** Memory and log agree. */
  ghost predicate Synced(st: Names) {
    Denote(st.log) == st.strToNum && OneRecordEach(st.log)
  }

  ghost predicate Good(st: Names) { Inverse(st.numToStr, st.strToNum) && Synced(st) }

  // ---------- probing

  /** n is the first free number at or after h, the largest number excluded. */
  ghost predicate FirstFree(used: map<uint32, string>, h: uint32, n: uint32) {
    h <= n < MAX_UINT32 && n !in used && forall j: uint32 | h <= j < n :: j in used
  }

  ghost predicate NoneFree(used: map<uint32, string>, h: uint32) {
    forall j: uint32 | h <= j < MAX_UINT32 :: j in used
  }

  lemma ProbeDecides(used: map<uint32, string>, h: uint32, n: uint32, m: uint32)
    requires FirstFree(used, h, n)
    ensures !NoneFree(used, h) && (FirstFree(used, h, m) ==> m == n)
  {
  }

  // ---------- the operations as relations

  /** saved says whether the write to the log succeeded. */
  datatype Op = DoHash(str: string, h: uint32, saved: bool) | DoDelete(str: string, saved: bool) | DoRestart

  ghost predicate HashNext(str: string, h: uint32, saved: bool, s: Names, t: Names, num: uint32) {
    if str in s.strToNum then num == s.strToNum[str] && t == s
    else if NoneFree(s.numToStr, h) then num == MAX_UINT32 && t == s
    else
      FirstFree(s.numToStr, h, num) &&
      t == Names(s.numToStr[num := str], s.strToNum[str := num], if saved then s.log + [Rec(str, num)] else s.log)
  }

  ghost predicate DeleteNext(str: string, saved: bool, s: Names, t: Names) {
    if str !in s.strToNum then t == s
    else
      t.numToStr == s.numToStr - {s.strToNum[str]} && t.strToNum == s.strToNum - {str} &&
      if saved then Denote(t.log) == t.strToNum && OneRecordEach(t.log) else t.log == s.log
  }

  /** A restart forgets memory, reads the log, and inverts it in some order. */
  ghost predicate RestartNext(s: Names, t: Names) {
    t.log == s.log && t.strToNum == Denote(s.log) &&
    (forall n | n in t.numToStr :: t.numToStr[n] in t.strToNum && t.strToNum[t.numToStr[n]] == n) &&
    (forall x | x in t.strToNum :: t.strToNum[x] in t.numToStr)
  }

  ghost predicate Next(op: Op, s: Names, t: Names) {
    match op
    case DoHash(str, h, saved) => exists num :: HashNext(str, h, saved, s, t, num)
    case DoDelete(str, saved) => DeleteNext(str, saved, s, t)
    case DoRestart => RestartNext(s, t)
  }

  // ---------- what every step keeps

  predicate Saved(op: Op) {
    match op
    case DoHash(_, _, saved) => saved
    case DoDelete(_, saved) => saved
    case DoRestart => true
  }

  /** A new string gets the least free number from its hash on, and only that changes; a known one keeps its own. */
  lemma HashRecords(str: string, h: uint32, saved: bool, s: Names, t: Names, num: uint32)
    requires Inverse(s.numToStr, s.strToNum) && HashNext(str, h, saved, s, t, num)
    ensures str in s.strToNum ==> t == s && num == s.strToNum[str]
    ensures str !in s.strToNum && (exists j: uint32 :: h <= j < MAX_UINT32 && j !in s.numToStr) ==>
              h <= num < MAX_UINT32 && num !in s.numToStr && (forall j: uint32 | h <= j < num :: j in s.numToStr) &&
              t.strToNum == s.strToNum[str := num] && t.numToStr == s.numToStr[num := str]
    ensures str !in s.strToNum && (forall j: uint32 | h <= j < MAX_UINT32 :: j in s.numToStr) ==>
              t == s && num == MAX_UINT32
  {
    if j: uint32 :| h <= j < MAX_UINT32 && j !in s.numToStr { assert !NoneFree(s.numToStr, h); }
  }

  /** A deleted string is gone in both directions, its number is free again, and no other entry changes. */
  lemma DeleteForgets(str: string, saved: bool, s: Names, t: Names)
    requires Inverse(s.numToStr, s.strToNum) && DeleteNext(str, saved, s, t)
    ensures str !in t.strToNum && (str in s.strToNum ==> s.strToNum[str] !in t.numToStr)
    ensures forall x | x != str ::
              (x in t.strToNum <==> x in s.strToNum) && (x in s.strToNum ==> t.strToNum[x] == s.strToNum[x])
    ensures forall n | n in s.numToStr && s.numToStr[n] != str :: n in t.numToStr && t.numToStr[n] == s.numToStr[n]
  {
  }

  lemma HashKeeps(str: string, h: uint32, saved: bool, s: Names, t: Names, num: uint32)
    requires Inverse(s.numToStr, s.strToNum) && HashNext(str, h, saved, s, t, num)
    ensures Inverse(t.numToStr, t.strToNum)
    ensures Synced(s) ==> (Synced(t) <==> saved || t == s)
  {
    if Synced(s) && t != s {
      DenoteAppend(s.log, Rec(str, num));
      DenoteKeys(s.log);
      if saved {
        forall i, j | 0 <= i < j < |t.log|
          ensures t.log[i].str != t.log[j].str
        {
          if j == |s.log| { assert s.log[i].str in Denote(s.log); }
        }
      } else {
        assert str in t.strToNum;
      }
    }
  }

  lemma DeleteKeeps(str: string, saved: bool, s: Names, t: Names)
    requires Inverse(s.numToStr, s.strToNum) && DeleteNext(str, saved, s, t)
    ensures Inverse(t.numToStr, t.strToNum)
    ensures Synced(s) ==> (Synced(t) <==> saved || t == s)
    ensures saved && str in s.strToNum ==> Synced(t)
  {
  }

  /** A restart from a log that agrees with memory changes nothing at all. */
  lemma RestartKeeps(s: Names, t: Names)
    requires Good(s) && RestartNext(s, t)
    ensures t == s
  {
    assert t.strToNum == s.strToNum;
    forall n: uint32
      ensures n in t.numToStr <==> n in s.numToStr
      ensures n in t.numToStr ==> t.numToStr[n] == s.numToStr[n]
    {
      if n in s.numToStr { assert t.strToNum[s.numToStr[n]] in t.numToStr; }
    }
    assert t.numToStr == s.numToStr;
  }

  /** No two strings have one number. */
  ghost predicate Injective(m: map<string, uint32>) {
    forall x, y | x in m && y in m && m[x] == m[y] :: x == y
  }

  /** A restart gives inverse maps exactly when the log gives each number to one string. */
  lemma RestartInverseIff(s: Names, t: Names)
    requires RestartNext(s, t)
    ensures Inverse(t.numToStr, t.strToNum) <==> Injective(Denote(s.log))
  {
    if Injective(t.strToNum) {
      forall x | x in t.strToNum
        ensures t.strToNum[x] in t.numToStr && t.numToStr[t.strToNum[x]] == x
      {
        assert t.strToNum[t.numToStr[t.strToNum[x]]] == t.strToNum[x];
      }
    }
  }

  /** A step keeps the maps inverse, whatever is saved, unless it restarts from a log with a number used twice. */
  lemma NextInverseIff(op: Op, s: Names, t: Names)
    requires Inverse(s.numToStr, s.strToNum) && Next(op, s, t)
    ensures Inverse(t.numToStr, t.strToNum) <==> (op.DoRestart? ==> Injective(Denote(s.log)))
  {
    match op {
      case DoHash(str, h, saved) =>
        var num :| HashNext(str, h, saved, s, t, num);
        HashKeeps(str, h, saved, s, t, num);
      case DoDelete(str, saved) => DeleteKeeps(str, saved, s, t);
      case DoRestart => RestartInverseIff(s, t);
    }
  }

  /** Each saved step keeps the bijection and its persistence. */
  lemma NextKeepsGood(op: Op, s: Names, t: Names)
    requires Good(s) && Next(op, s, t) && Saved(op)
    ensures Good(t)
  {
    match op {
      case DoHash(str, h, saved) =>
        var num :| HashNext(str, h, saved, s, t, num);
        HashKeeps(str, h, saved, s, t, num);
      case DoDelete(str, saved) => DeleteKeeps(str, saved, s, t);
      case DoRestart => RestartKeeps(s, t);
    }
  }

  ghost predicate Trace(ops: seq<Op>, states: seq<Names>) {
    |states| == |ops| + 1 && forall i | 0 <= i < |ops| :: Next(ops[i], states[i], states[i + 1])
  }

  /**
    Over every run with successful writes, restarts included, the maps stay
    inverse, the log stands for them, and a recorded string keeps its number
    until it is deleted.
   */
  lemma {:induction false} NumbersAreStable(ops: seq<Op>, states: seq<Names>, str: string)
    requires Trace(ops, states) && Good(states[0]) && (forall i | 0 <= i < |ops| :: Saved(ops[i]))
    ensures Good(states[|ops|])
    ensures str in states[0].strToNum && (forall i | 0 <= i < |ops| :: !(ops[i].DoDelete? && ops[i].str == str)) ==>
              str in states[|ops|].strToNum && states[|ops|].strToNum[str] == states[0].strToNum[str]
    decreases |ops|
  {
    if ops != [] {
      NextKeepsGood(ops[0], states[0], states[1]);
      assert Next(ops[0], states[0], states[1]);
      if ops[0].DoRestart? { RestartKeeps(states[0], states[1]); }
      assert Trace(ops[1..], states[1..]) by {
        forall i | 0 <= i < |ops| - 1
          ensures Next(ops[1..][i], states[1..][i], states[1..][i + 1])
        {
          assert Next(ops[i + 1], states[i + 1], states[i + 2]);
        }
      }
      NumbersAreStable(ops[1..], states[1..], str);
    }
  }

  ghost predicate InverseThroughout(states: seq<Names>) {
    forall i | 0 <= i < |states| :: Inverse(states[i].numToStr, states[i].strToNum)
  }

  /** Every restart of the run finds a log that gives each number to one string. */
  ghost predicate SoundRestarts(ops: seq<Op>, states: seq<Names>)
    requires |states| == |ops| + 1
  {
    forall i | 0 <= i < |ops| && ops[i].DoRestart? :: Injective(Denote(states[i].log))
  }

  /** Over every run, lost writes included, the maps stay inverse exactly when every restart finds a sound log. */
  lemma InverseRunIff(ops: seq<Op>, states: seq<Names>)
    requires Trace(ops, states) && Inverse(states[0].numToStr, states[0].strToNum)
    ensures InverseThroughout(states) <==> SoundRestarts(ops, states)
  {
    if SoundRestarts(ops, states) {
      for i := 0 to |ops|
        invariant forall j | 0 <= j <= i :: Inverse(states[j].numToStr, states[j].strToNum)
      {
        assert Next(ops[i], states[i], states[i + 1]);
        NextInverseIff(ops[i], states[i], states[i + 1]);
      }
    }
    if InverseThroughout(states) {
      forall i | 0 <= i < |ops| && ops[i].DoRestart?
        ensures Injective(Denote(states[i].log))
      {
        assert Next(ops[i], states[i], states[i + 1]);
        RestartInverseIff(states[i], states[i + 1]);
      }
    }
  }

  /** As long as the process runs, a string keeps its number until it is deleted, whatever is saved. */
  lemma NumberUntilRestart(ops: seq<Op>, states: seq<Names>, str: string)
    requires Trace(ops, states) && str in states[0].strToNum
    requires forall i | 0 <= i < |ops| :: !ops[i].DoRestart? && !(ops[i].DoDelete? && ops[i].str == str)
    ensures str in states[|ops|].strToNum && states[|ops|].strToNum[str] == states[0].strToNum[str]
  {
    for i := 0 to |ops|
      invariant str in states[i].strToNum && states[i].strToNum[str] == states[0].strToNum[str]
    {
      assert Next(ops[i], states[i], states[i + 1]);
    }
  }

  /**
    A lost write is visible: a delete that fails to save lets the number be
    given out again, the log then holds one number for two strings, and the
    maps of the next process are not inverse.
   */
  lemma LostDeleteReusesNumber(a: string, b: string, h: uint32, s: Names, t: Names, u: Names, v: Names)
    requires a != b && h < MAX_UINT32 && s == Names(map[h := a], map[a := h], [Rec(a, h)])
    requires DeleteNext(a, false, s, t) && HashNext(b, h, true, t, u, h) && RestartNext(u, v)
    ensures Good(s) && Inverse(u.numToStr, u.strToNum) && Denote(u.log) == map[a := h, b := h]
    ensures v.strToNum == map[a := h, b := h] && !Inverse(v.numToStr, v.strToNum)
  {
    DenoteAppend([], Rec(a, h));
    DenoteAppend([Rec(a, h)], Rec(b, h));
    assert [] + [Rec(a, h)] == [Rec(a, h)];
    assert t == Names(map[], map[], [Rec(a, h)]);
    assert u.log == [Rec(a, h)] + [Rec(b, h)];
    RestartInverseIff(u, v);
    assert v.strToNum[a] == v.strToNum[b];
  }

  // ---------- the object

  class HashName {
    var numToStr: map<uint32, string>
    var strToNum: map<string, uint32>
    // The persisted file.
    var log: seq<Rec>

    ghost function Abs(): Names
      reads this
    {
      Names(numToStr, strToNum, log)
    }

    /** Reads the persisted log and inverts it, in whatever order the map is walked. */
    constructor (log: seq<Rec>)
      ensures forall s: Names | s.log == log :: RestartNext(s, Abs())
    {
      this.log := log;
      var strs := Denote(log);
      var nums: map<uint32, string>, rest := map[], strs.Keys;
      while rest != {}
        invariant rest <= strs.Keys
        invariant forall n | n in nums :: nums[n] in strs && strs[nums[n]] == n
        invariant forall x | x in strs && x !in rest :: strs[x] in nums
        decreases rest
      {
        var x :| x in rest;
        nums := nums[strs[x] := x];
        rest := rest - {x};
      }
      strToNum, numToStr := strs, nums;
    }

    /** h is the 32-bit hash of str; saved says whether the append succeeds. */
    method Hash(str: string, h: uint32, saved: bool) returns (num: uint32)
      modifies this
      ensures HashNext(str, h, saved, old(Abs()), Abs(), num)
    {
      if str in strToNum { return strToNum[str]; }
      num := h;
      while num < MAX_UINT32
        invariant h <= num && Abs() == old(Abs())
        invariant forall j: uint32 | h <= j < num :: j in numToStr
      {
        if num !in numToStr {
          ProbeDecides(numToStr, h, num, num);
          numToStr := numToStr[num := str];
          strToNum := strToNum[str := num];
          if saved { log := log + [Rec(str, num)]; }
          return;
        }
        // The ring branch tests for the largest number, which the loop guard has excluded.
        assert num != MAX_UINT32;
        num := num + 1;
      }
    }

    /** Rewrites the log from memory, one record per string, in whatever order the map is walked. */
    method Flush(saved: bool)
      modifies this`log
      ensures if saved then Denote(log) == strToNum && OneRecordEach(log) else log == old(log)
    {
      if !saved { return; }
      log := [];
      var rest := strToNum.Keys;
      while rest != {}
        invariant rest <= strToNum.Keys && OneRecordEach(log)
        invariant forall x :: x in Denote(log) <==> x in strToNum && x !in rest
        invariant forall x | x in Denote(log) :: Denote(log)[x] == strToNum[x]
        decreases rest
      {
        var x :| x in rest;
        DenoteAppend(log, Rec(x, strToNum[x]));
        DenoteKeys(log);
        log := log + [Rec(x, strToNum[x])];
        rest := rest - {x};
      }
    }

    method Delete(str: string, saved: bool)
      modifies this
      ensures DeleteNext(str, saved, old(Abs()), Abs())
    {
      if str in strToNum {
        numToStr := numToStr - {strToNum[str]};
        strToNum := strToNum - {str};
        Flush(saved);
      }
    }
  }
}
