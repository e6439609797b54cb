/**
 The chains of OSS minor numbers: a singly linked list, kept sorted, in which the first free number of an
 arithmetic progression is claimed, given ones are claimed or refused, and units are removed and looked up.
 */
module SoundUnits {
  import opened Words

  const STEP: nat := 16  // SOUND_STEP

  class Unit {
    var minor: int
    var next: Unit?

    constructor ()
      ensures next == null
    {
      minor, next := 0, null;
    }
  }

  // ---------------------------------------------------------------- sorted sequences of numbers

  ghost predicate Ascending(s: seq<int>) {
    forall i, j :: 0 <= i < j < |s| ==> s[i] < s[j]
  }

  /** The arithmetic progression of numbers a first-free search goes through. */
  function Candidate(low: nat, i: int): int {
    low + STEP * i
  }

  /** All numbers are `low` modulo the step. */
  ghost predicate SameResidue(s: seq<int>, low: nat) {
    forall i :: 0 <= i < |s| ==> (s[i] - low) % STEP == 0
  }

  /** The first `j` candidates are in the chain or refused by the system. */
  ghost predicate AllTaken(s: seq<int>, refused: iset<int>, low: nat, j: nat) {
    forall i :: 0 <= i < j ==> Candidate(low, i) in s || Candidate(low, i) in refused
  }

  /** `n` is the least candidate that is neither in the chain nor refused. */
  ghost predicate IsLeastFree(n: int, s: seq<int>, refused: iset<int>, low: nat) {
    n !in s && n !in refused && exists j: nat :: n == Candidate(low, j) && AllTaken(s, refused, low, j)
  }

  /** Every candidate below `top` is in the chain or refused. */
  ghost predicate NoneFree(s: seq<int>, refused: iset<int>, low: nat, top: int) {
    exists j: nat :: Candidate(low, j) >= top && AllTaken(s, refused, low, j)
  }

  /** In plain terms: sixteen apart from `low` on, it is free, and none below it is. */
  lemma LeastFreeMeans(n: int, s: seq<int>, refused: iset<int>, low: nat)
    ensures IsLeastFree(n, s, refused, low) <==>
            && n >= low && (n - low) % 16 == 0 && n !in s && n !in refused
            && forall m :: low <= m < n && (m - low) % 16 == 0 ==> m in s || m in refused
  {
    if IsLeastFree(n, s, refused, low) {
      var j: nat :| n == Candidate(low, j) && AllTaken(s, refused, low, j);
      forall m | low <= m < n && (m - low) % 16 == 0 ensures m in s || m in refused {
        assert m == Candidate(low, (m - low) / 16);
      }
    } else if n >= low && (n - low) % 16 == 0 && n !in s && n !in refused {
      var j := (n - low) / 16;
      assert n == Candidate(low, j);
      var i :| 0 <= i < j && Candidate(low, i) !in s && Candidate(low, i) !in refused;
      assert (Candidate(low, i) - low) % 16 == 0;
    }
  }

  lemma NoneFreeMeans(s: seq<int>, refused: iset<int>, low: nat, top: int)
    ensures NoneFree(s, refused, low, top) <==>
            forall m :: low <= m < top && (m - low) % 16 == 0 ==> m in s || m in refused
  {
    if top <= low {
      assert Candidate(low, 0) >= top;
    } else if NoneFree(s, refused, low, top) {
      var j: nat :| Candidate(low, j) >= top && AllTaken(s, refused, low, j);
      forall m | low <= m < top && (m - low) % 16 == 0 ensures m in s || m in refused {
        assert m == Candidate(low, (m - low) / 16);
      }
    } else {
      var j: nat := (top - low + 15) / 16;
      assert Candidate(low, j) >= top;
      var i :| 0 <= i < j && Candidate(low, i) !in s && Candidate(low, i) !in refused;
      assert (Candidate(low, i) - low) % 16 == 0;
    }
  }

  ghost function Inserted(s: seq<int>, k: nat, n: int): seq<int>
    requires k <= |s|
  {
    s[..k] + [n] + s[k..]
  }

  lemma InsertedAscending(s: seq<int>, k: nat, n: int)
    requires k <= |s| && Ascending(s)
    requires (k > 0 ==> s[k - 1] < n) && (k < |s| ==> n < s[k])
    ensures Ascending(Inserted(s, k, n)) && n !in s && |Inserted(s, k, n)| == |s| + 1
    ensures forall i :: 0 <= i < |s| + 1 ==> Inserted(s, k, n)[i] == if i < k then s[i] else if i == k then n else s[i - 1]
  {
    forall i | 0 <= i < |s| ensures if i < k then s[i] < n else n < s[i] {
    }
  }

  ghost function Deleted(s: seq<int>, k: nat): seq<int>
    requires k < |s|
  {
    s[..k] + s[k + 1..]
  }

  lemma InsertedAt(s: seq<int>, k: nat, n: int)
    requires k <= |s|
    ensures k < |Inserted(s, k, n)| && Inserted(s, k, n)[k] == n
  {
  }

  lemma OnePlace(s: seq<int>, i: nat, j: nat)
    requires Ascending(s) && i < |s| && j < |s| && s[i] == s[j]
    ensures i == j
  {
  }

  lemma TakenOutAgain<T>(u: seq<T>, x: T, k: nat)
    requires k <= |u|
    ensures var v := u[..k] + [x] + u[k..]; v[..k] + v[k + 1..] == u
  {
  }

  lemma DeletedAscending(s: seq<int>, k: nat)
    requires k < |s| && Ascending(s)
    ensures Ascending(Deleted(s, k)) && |Deleted(s, k)| == |s| - 1
    ensures forall i :: 0 <= i < |s| - 1 ==> Deleted(s, k)[i] == if i < k then s[i] else s[i + 1]
  {
  }

  // ---------------------------------------------------------------- the chain

  class Chain {
    var head: Unit?
    ghost var units: seq<Unit>   // the units in list order
    ghost var minors: seq<int>   // and their numbers

    ghost predicate Linked()
      reads this`head, this`units, units`next
    {
      && head == Nth(0)
      && (forall i {:trigger units[i].next} :: 0 <= i < |units| ==> units[i].next == Nth(i + 1))
      && Distinct(units)
    }

    static ghost predicate Distinct(u: seq<Unit>) {
      forall i, j :: 0 <= i < j < |u| ==> u[i] != u[j]
    }

    static lemma DistinctWith(u: seq<Unit>, s: Unit, k: nat)
      requires Distinct(u) && s !in u && k <= |u|
      ensures var v := u[..k] + [s] + u[k..];
              Distinct(v) && forall i :: 0 <= i < |v| ==> v[i] == if i < k then u[i] else if i == k then s else u[i - 1]
    {
    }

    static lemma DistinctWithout(u: seq<Unit>, k: nat)
      requires Distinct(u) && k < |u|
      ensures var v := u[..k] + u[k + 1..];
              Distinct(v) && u[k] !in v && forall i :: 0 <= i < |v| ==> v[i] == if i < k then u[i] else u[i + 1]
    {
    }

    ghost function Nth(i: int): Unit?
      reads this`units
    {
      if 0 <= i < |units| then units[i] else null
    }

    ghost predicate Valid()
      reads this, units
    {
      && Linked() && |minors| == |units| && Ascending(minors)
      && forall i :: 0 <= i < |units| ==> units[i].minor == minors[i]
    }

    constructor ()
      ensures Valid() && units == [] && minors == []
    {
      head, units, minors := null, [], [];
    }

    /** `s->next = *list; *list = s` at the place a walk has reached: after `prev`, or at the head. */
    method LinkAfter(prev: Unit?, s: Unit, ghost k: nat)
      requires Linked() && s !in units && k <= |units| && prev == Nth(k - 1)
      modifies this`head, this`units, units`next, s`next
      ensures Linked() && units == old(units)[..k] + [s] + old(units)[k..]
    {
      ghost var u := units;
      if prev == null {
        s.next := head;
        head := s;
      } else {
        s.next := prev.next;
        prev.next := s;
      }
      units := units[..k] + [s] + units[k..];
      DistinctWith(u, s, k);
      forall i | 0 <= i < |units| ensures units[i].next == Nth(i + 1) {
        if i < k - 1 {
          assert u[i] != u[k - 1] && units[i + 1] == u[i + 1];
        } else if i > k {
          assert k > 0 ==> u[i - 1] != u[k - 1];
        }
      }
    }

    /** The walk of a first-free insertion: the place and the number it settles on. */
    method FindHole(low: nat, top: int) returns (prev: Unit?, n: int, ghost k: nat, ghost j: nat)
      requires Valid() && SameResidue(minors, low)
      ensures k <= |units| && prev == Nth(k - 1) && n == Candidate(low, j) && AllTaken(minors, iset{}, low, j)
      ensures k > 0 ==> minors[k - 1] < n
      ensures n < top && k < |units| ==> n < minors[k]
    {
      ghost var s := minors;
      n, k, j, prev := low, 0, 0, null;
      var cur := head;
      while cur != null && cur.minor < n
        invariant k <= |units| && cur == Nth(k) && prev == Nth(k - 1)
        invariant k > 0 ==> s[k - 1] < n
        decreases |units| - k
      {
        prev, cur, k := cur, cur.next, k + 1;
      }
      while n < top
        invariant k <= |units| && cur == Nth(k) && prev == Nth(k - 1) && n == Candidate(low, j)
        invariant k > 0 ==> s[k - 1] < n
        invariant k < |units| ==> n <= s[k]
        invariant AllTaken(s, iset{}, low, j)
        decreases |units| - k
      {
        if cur == null || cur.minor > n {
          break;
        }
        StepClosed(s, k, j, low);
        prev, cur, k := cur, cur.next, k + 1;
        n, j := n + STEP, j + 1;
      }
    }

    /** The walk of an insertion of a given number, which may be taken. */
    method FindPlace(n: int) returns (taken: bool, prev: Unit?, ghost k: nat)
      requires Valid()
      ensures taken <==> n in minors
      ensures !taken ==> k <= |units| && prev == Nth(k - 1)
      ensures !taken ==> (k > 0 ==> minors[k - 1] < n) && (k < |units| ==> n < minors[k])
    {
      ghost var s := minors;
      k, prev := 0, null;
      var cur := head;
      while cur != null
        invariant k <= |units| && cur == Nth(k) && prev == Nth(k - 1)
        invariant forall i :: 0 <= i < k ==> s[i] < n
        decreases |units| - k
      {
        if cur.minor == n {
          assert s[k] == n;
          return true, prev, k;
        }
        if cur.minor > n {
          break;
        }
        prev, cur, k := cur, cur.next, k + 1;
      }
      taken := false;
    }

    /** `__sound_insert_unit`: the least free number from `low` up, or the given one. */
    method Insert(s: Unit, index: int, low: nat, top: int) returns (ret: int, ghost k: nat)
      requires Valid() && s !in units
      requires index < 0 ==> SameResidue(minors, low)
      modifies this, units, s
      ensures Valid() && (ret >= 0 ==> Grown(s, ret, k)) && (ret < 0 ==> units == old(units) && minors == old(minors))
      ensures index < 0 ==> if ret == NOENT then NoneFree(old(minors), iset{}, low, top)
                            else 0 <= ret < top && IsLeastFree(ret, old(minors), iset{}, low)
      ensures index >= 0 ==> ret == if low + index * 16 in old(minors) then BUSY else low + index * 16
    {
      if index < 0 {
        ret, k := InsertFirstFree(s, low, top);
      } else {
        ret, k := InsertGiven(s, low + index * STEP);
      }
    }

    method InsertFirstFree(s: Unit, low: nat, top: int) returns (ret: int, ghost k: nat)
      requires Valid() && s !in units && SameResidue(minors, low)
      modifies this, units, s
      ensures Valid() && (ret >= 0 ==> Grown(s, ret, k)) && (ret < 0 ==> units == old(units) && minors == old(minors))
      ensures if ret == NOENT then NoneFree(old(minors), iset{}, low, top)
              else 0 <= ret < top && IsLeastFree(ret, old(minors), iset{}, low)
    {
      ghost var j, m := 0, minors;
      var prev, n;
      prev, n, k, j := FindHole(low, top);
      if n >= top {
        assert Candidate(low, j) >= top && AllTaken(m, iset{}, low, j);
        return NOENT, k;
      }
      Place(prev, s, n, k);
      assert n == Candidate(low, j) && AllTaken(m, iset{}, low, j);
      return n, k;
    }

    method InsertGiven(s: Unit, n: nat) returns (ret: int, ghost k: nat)
      requires Valid() && s !in units
      modifies this, units, s
      ensures Valid() && (ret >= 0 ==> Grown(s, ret, k)) && (ret < 0 ==> units == old(units) && minors == old(minors))
      ensures ret == if n in old(minors) then BUSY else n
    {
      var taken, prev;
      taken, prev, k := FindPlace(n);
      if taken {
        return BUSY, k;
      }
      Place(prev, s, n, k);
      return n, k;
    }

    /** The chain has gained unit `s` with number `n` at place `k`, and lost nothing. */
    twostate predicate Grown(s: Unit, n: int, k: nat)
      reads this, units, s
    {
      && s.minor == n && k <= |old(units)| == |old(minors)| && units == old(units)[..k] + [s] + old(units)[k..]
      && n !in old(minors) && minors == Inserted(old(minors), k, n)
    }

    method Place(prev: Unit?, s: Unit, n: int, ghost k: nat)
      requires Valid() && s !in units && k <= |units| && prev == Nth(k - 1)
      requires (k > 0 ==> minors[k - 1] < n) && (k < |units| ==> n < minors[k])
      modifies this, units, s
      ensures Valid() && Grown(s, n, k)
    {
      ghost var u, m := units, Inserted(minors, k, n);
      InsertedAscending(minors, k, n);
      s.minor := n;
      LinkAfter(prev, s, k);
      DistinctWith(u, s, k);
      forall i | 0 <= i < |units| ensures units[i].minor == m[i] {
        assert i < k ==> units[i] == u[i];
        assert i > k ==> units[i] == u[i - 1];
      }
      minors := m;
    }

    /** `__sound_remove_unit` */
    method Remove(minor: int) returns (p: Unit?, ghost k: nat)
      requires Valid()
      modifies this, units
      ensures Valid()
      ensures p != null <==> minor in old(minors)
      ensures p == null ==> units == old(units) && minors == old(minors)
      ensures p != null ==> p.minor == minor && k < |old(units)| && old(units)[k] == p && old(minors)[k] == minor
      ensures p != null ==> p !in units && units == old(units)[..k] + old(units)[k + 1..]
      ensures p != null ==> minors == Deleted(old(minors), k)
    {
      var prev: Unit?, cur := null, head;
      ghost var m := minors;
      k := 0;
      while cur != null
        invariant k <= |units| && cur == Nth(k) && prev == Nth(k - 1)
        invariant forall i :: 0 <= i < k ==> m[i] != minor
        decreases |units| - k
      {
        if cur.minor == minor {
          TakeOut(prev, cur, k);
          return cur, k;
        }
        prev, cur, k := cur, cur.next, k + 1;
      }
      p := null;
    }

    method TakeOut(prev: Unit?, p: Unit, ghost k: nat)
      requires Valid() && k < |units| && units[k] == p && prev == Nth(k - 1)
      modifies this, units
      ensures Valid() && units == old(units)[..k] + old(units)[k + 1..] && p !in units
      ensures p.minor == old(p.minor) && minors == Deleted(old(minors), k)
    {
      ghost var u, m := units, Deleted(minors, k);
      DeletedAscending(minors, k);
      UnlinkAfter(prev, p, k);
      DistinctWithout(u, k);
      forall i | 0 <= i < |units| ensures units[i].minor == m[i] {
        assert units[i] == if i < k then u[i] else u[i + 1];
      }
      minors := m;
    }

    /** `*list = p->next` */
    method UnlinkAfter(prev: Unit?, p: Unit, ghost k: nat)
      requires Linked() && k < |units| && units[k] == p && prev == Nth(k - 1)
      modifies this`head, this`units, units`next
      ensures Linked() && units == old(units)[..k] + old(units)[k + 1..] && p !in units
    {
      ghost var u := units;
      if prev == null {
        head := p.next;
      } else {
        prev.next := p.next;
      }
      units := units[..k] + units[k + 1..];
      DistinctWithout(u, k);
      forall i | 0 <= i < |units| ensures units[i].next == Nth(i + 1) {
        if i < k - 1 {
          assert u[i] != u[k - 1] && units[i + 1] == u[i + 1];
        } else if i >= k {
          assert k > 0 ==> u[i + 1] != u[k - 1];
        }
      }
    }

    /** An insertion whose number the system refused is taken back. */
    method TakeBack(s: Unit, n: int, ghost u: seq<Unit>, ghost m: seq<int>, ghost k: nat)
      requires Valid() && k <= |u| == |m| && units == u[..k] + [s] + u[k..] && minors == Inserted(m, k, n)
      modifies this, units
      ensures Valid() && units == u && minors == m
    {
      InsertedAt(m, k, n);
      ghost var w := minors;
      var p, at := Remove(n);
      OnePlace(w, at, k);
      TakenOutAgain(u, s, k);
      TakenOutAgain(m, n, k);
    }

    /** An insertion and the registration of its number: nothing free, registered, or refused and given back. */
    method TryRegister(s: Unit, index: int, low: nat, top: int, refused: int -> bool)
      returns (ret: int, ok: bool, ghost k: nat)
      requires Valid() && s !in units
      requires index < 0 ==> SameResidue(minors, low)
      modifies this, units, s
      ensures Valid() && (if ok then ret >= 0 && Grown(s, ret, k) && !refused(ret) else units == old(units) && minors == old(minors))
      ensures ret >= 0 && !ok ==> refused(ret)
      ensures index < 0 ==> if ret == NOENT then NoneFree(old(minors), iset{}, low, top)
                            else 0 <= ret < top && IsLeastFree(ret, old(minors), iset{}, low)
      ensures index >= 0 ==> ret == if low + index * 16 in old(minors) then BUSY else low + index * 16
    {
      ret, k := Insert(s, index, low, top);
      ok := ret >= 0 && !refused(ret);
      if ret >= 0 && !ok {
        TakeBack(s, ret, old(units), old(minors), k);
      }
    }

    /**
     * `sound_insert_unit`: a number the system refuses to register is given back, and a first-free search goes on
     * above it. Numbers in `refused` are the ones the registration of a character device turns down.
     */
    method InsertRegistered(s: Unit, index: int, from: nat, top: int, refused: int -> bool) returns (ret: int, ghost k: nat)
      requires Valid() && s !in units
      requires index < 0 ==> SameResidue(minors, from)
      modifies this, units, s
      ensures Valid() && (ret >= 0 ==> Grown(s, ret, k)) && (ret < 0 ==> units == old(units) && minors == old(minors))
      ensures index < 0 ==> if ret == NOENT then NoneFree(old(minors), Refusals(refused), from, top)
                            else 0 <= ret < top && IsLeastFree(ret, old(minors), Refusals(refused), from)
      ensures index >= 0 ==> var n := from + index * 16;
                             ret == if n in old(minors) || refused(n) then BUSY else n
    {
      if index < 0 {
        ret, k := SearchRegistered(s, from, top, refused);
      } else {
        var ok;
        ret, ok, k := TryRegister(s, index, from, top, refused);
        if ret >= 0 && !ok {
          ret := BUSY;
        }
      }
    }

    /** The retries of a first-free search, which go through the refused numbers upwards. */
    method SearchRegistered(s: Unit, from: nat, top: int, refused: int -> bool) returns (ret: int, ghost k: nat)
      requires Valid() && s !in units && SameResidue(minors, from)
      modifies this, units, s
      ensures Valid() && (ret >= 0 ==> Grown(s, ret, k)) && (ret < 0 ==> units == old(units) && minors == old(minors))
      ensures if ret == NOENT then NoneFree(old(minors), Refusals(refused), from, top)
              else 0 <= ret < top && IsLeastFree(ret, old(minors), Refusals(refused), from)
    {
      ghost var m, i := minors, 0;
      var low: nat := from;
      while true
        invariant Valid() && units == old(units) && minors == m
        invariant low == Candidate(from, i) && AllTaken(m, Refusals(refused), from, i) && SameResidue(m, low)
        decreases top - low
      {
        var ok;
        ret, ok, k := TryRegister(s, -1, low, top, refused);
        if ret < 0 || ok {
          SearchEnds(m, Refusals(refused), from, i, ret, top);
          return;
        }
        i := RefusedSoFar(m, Refusals(refused), from, i, ret);
        low := ret + STEP;
      }
    }

    /** `__look_for_unit`, which gives up at the first larger number. */
    method Lookup(unit: int) returns (s: Unit?)
      requires Valid()
      ensures s != null <==> unit in minors
      ensures s != null ==> s in units && s.minor == unit
    {
      ghost var k, m := 0, minors;
      s := head;
      while s != null && s.minor <= unit
        invariant k <= |units| && s == Nth(k)
        invariant forall i :: 0 <= i < k ==> m[i] < unit
        decreases |units| - k
      {
        if s.minor == unit {
          assert m[k] == unit;
          return s;
        }
        s, k := s.next, k + 1;
      }
      return null;
    }
  }

  /** One step of the search for a hole: the number is taken, and the next one cannot be passed by. */
  lemma StepClosed(s: seq<int>, k: nat, j: nat, low: nat)
    requires k < |s| && s[k] == Candidate(low, j) && Ascending(s) && SameResidue(s, low) && AllTaken(s, iset{}, low, j)
    ensures AllTaken(s, iset{}, low, j + 1)
    ensures k + 1 < |s| ==> Candidate(low, j + 1) <= s[k + 1]
  {
    if k + 1 < |s| {
      assert s[k] < s[k + 1] && (s[k + 1] - low) % STEP == 0;
    }
  }

  ghost function Refusals(refused: int -> bool): iset<int> {
    iset n | refused(n)
  }

  lemma ResidueMoves(s: seq<int>, low: nat, i: nat)
    ensures SameResidue(s, low) ==> SameResidue(s, low + STEP * i)
  {
    if SameResidue(s, low) {
      forall k | 0 <= k < |s| ensures (s[k] - (low + STEP * i)) % STEP == 0 {
        assert s[k] - low == STEP * ((s[k] - low) / STEP);
        assert s[k] - (low + STEP * i) == STEP * ((s[k] - low) / STEP - i);
      }
    }
  }

  /** Candidates counted from the `i`-th on are the candidates counted from the start. */
  lemma TakenAbove(s: seq<int>, refused: iset<int>, low: nat, i: nat, j: nat)
    requires AllTaken(s, refused, low, i) && AllTaken(s, iset{}, Candidate(low, i), j)
    ensures AllTaken(s, refused, low, i + j) && Candidate(low, i + j) == Candidate(Candidate(low, i), j)
  {
    forall h | 0 <= h < i + j ensures Candidate(low, h) in s || Candidate(low, h) in refused {
      if h >= i {
        assert Candidate(Candidate(low, i), h - i) in s;
      }
    }
  }

  lemma NoneFreeAbove(s: seq<int>, refused: iset<int>, low: nat, i: nat, top: int)
    requires AllTaken(s, refused, low, i) && NoneFree(s, iset{}, Candidate(low, i), top)
    ensures NoneFree(s, refused, low, top)
  {
    var j: nat :| Candidate(Candidate(low, i), j) >= top && AllTaken(s, iset{}, Candidate(low, i), j);
    TakenAbove(s, refused, low, i, j);
  }

  lemma LeastFreeAbove(s: seq<int>, refused: iset<int>, low: nat, i: nat, n: int)
    requires AllTaken(s, refused, low, i) && IsLeastFree(n, s, iset{}, Candidate(low, i)) && n !in refused
    ensures IsLeastFree(n, s, refused, low)
  {
    var j: nat :| n == Candidate(Candidate(low, i), j) && AllTaken(s, iset{}, Candidate(low, i), j);
    TakenAbove(s, refused, low, i, j);
  }

  lemma SearchEnds(s: seq<int>, refused: iset<int>, low: nat, i: nat, ret: int, top: int)
    requires AllTaken(s, refused, low, i) && (ret >= 0 ==> ret !in refused)
    requires if ret == NOENT then NoneFree(s, iset{}, Candidate(low, i), top) else IsLeastFree(ret, s, iset{}, Candidate(low, i))
    ensures if ret == NOENT then NoneFree(s, refused, low, top) else ret >= 0 ==> IsLeastFree(ret, s, refused, low)
  {
    if ret == NOENT {
      NoneFreeAbove(s, refused, low, i, top);
    } else if ret >= 0 {
      LeastFreeAbove(s, refused, low, i, ret);
    }
  }

  /** A refusal makes the next number the one all of whose predecessors are taken. */
  lemma RefusedSoFar(s: seq<int>, refused: iset<int>, low: nat, i: nat, n: int) returns (h: nat)
    requires SameResidue(s, Candidate(low, i))
    requires AllTaken(s, refused, low, i) && IsLeastFree(n, s, iset{}, Candidate(low, i)) && n in refused
    ensures AllTaken(s, refused, low, h) && n + STEP == Candidate(low, h) && h > i && SameResidue(s, n + STEP)
  {
    var j: nat :| n == Candidate(Candidate(low, i), j) && AllTaken(s, iset{}, Candidate(low, i), j);
    TakenAbove(s, refused, low, i, j);
    ResidueMoves(s, Candidate(low, i), j + 1);
    h := i + j + 1;
  }
}
