/** Searching for the largest socket buffer the kernel grants: k_set_sndbuf and k_set_rcvbuf. */
module BufferSearch {

  datatype Option = SndBuf | RcvBuf

  /** A socket whose kernel accepts a buffer size exactly up to a limit. */
  class Socket {
    const limit: nat
    var sndbuf: int
    var rcvbuf: int
    ghost var refusals: nat  // how many setsockopt calls have failed

    constructor (limit: nat)
      ensures this.limit == limit && refusals == 0
    {
      this.limit := limit;
      sndbuf, rcvbuf, refusals := 0, 0, 0;
    }

    function Size(opt: Option): int
      reads this
    {
      if opt == SndBuf then sndbuf else rcvbuf
    }

    /** setsockopt(SO_SNDBUF or SO_RCVBUF) */
    method SetSockOpt(opt: Option, size: int) returns (ok: bool)
      modifies this
      ensures ok == (size <= limit)
      ensures Size(opt) == if ok then size else old(Size(opt))
      ensures forall other: Option :: other != opt ==> Size(other) == old(Size(other))
      ensures refusals == old(refusals) + if ok then 0 else 1
    {
      ok := size <= limit;
      if !ok {
        refusals := refusals + 1;
      } else if opt == SndBuf {
        sndbuf := size;
      } else {
        rcvbuf := size;
      }
    }
  }

  function Pow2(k: nat): (p: nat)
    ensures p >= 1
  {
    if k == 0 then 1 else 2 * Pow2(k - 1)
  }

  /** The largest power of two that is at most `r`, or 0. */
  function FloorPow2(r: nat): (p: nat)
    ensures p <= r && (r > 0 ==> p > 0 && r < 2 * p)
  {
    if r <= 1 then r else 2 * FloorPow2(r / 2)
  }

  lemma {:induction false} FloorPow2Between(j: nat, r: nat)
    requires Pow2(j) <= r < 2 * Pow2(j)
    ensures FloorPow2(r) == Pow2(j)
  {
    if j > 0 { FloorPow2Between(j - 1, r / 2); }
  }

  /** Where the search ends when the kernel's limit is below the size asked for first. */
  function Granted(limit: nat): nat {
    if limit / 1024 % 2 == 1 then limit / 1024 * 1024
    else limit / 1024 * 1024 + FloorPow2(limit % 1024)
  }

  /** The search may lose up to 1023 bytes, and is exact just for these limits. */
  lemma GrantedClose(limit: nat)
    ensures Granted(limit) <= limit < Granted(limit) + 1024
    ensures Granted(limit) == limit
            <==> limit % 1024 == 0 || (limit / 1024 % 2 == 0 && FloorPow2(limit % 1024) == limit % 1024)
  {
  }

  lemma {:induction false} Pow2Order(i: nat, j: nat)
    requires i <= j
    ensures Pow2(i) <= Pow2(j)
    ensures i < j ==> 2 * Pow2(i) <= Pow2(j)
  {
    if i < j { Pow2Order(i, j - 1); }
  }

  lemma StepSize(j: nat)
    ensures Pow2(j) < 1024 <==> j < 10
  {
    assert Pow2(10) == 1024;
    if j < 10 { Pow2Order(j, 10); } else { Pow2Order(10, j); }
  }

  /** The state between two attempts, having started from Pow2(k): the next size to try is `bufsize`, the last
      step was `delta` = Pow2(j).  While the steps are 1024 or more, `bufsize` is an odd multiple of the step;
      below, it is the step above the even multiple of 1024 under the limit.  At j == -1 the limit is pinned. */
  ghost predicate OnTrack(k: nat, limit: nat, bufsize: int, delta: int, iter: nat, j: int, m: int) {
    if j < 0 then
      j == -1 && delta == 1 && iter == k && bufsize == limit && limit % 2048 == 0
    else
      && iter == k - 1 - j && delta == Pow2(j)
      && bufsize - delta <= limit < bufsize + delta
      && (j >= 10 ==> bufsize == delta * (2 * m + 1))
      && (j < 10 ==> limit / 1024 % 2 == 0 && bufsize == limit / 1024 * 1024 + delta)
  }

  /** Half a step below or above an odd multiple of a step is an odd multiple of half a step. */
  lemma OddMultiples(d: int, m: int)
    ensures 2 * d * (2 * m + 1) - d == d * (2 * (2 * m) + 1)
    ensures 2 * d * (2 * m + 1) + d == d * (2 * (2 * m + 1) + 1)
  {
  }

  lemma HalfPow2(k: nat)
    requires Pow2(k) >= 2
    ensures k >= 1 && Half(Pow2(k)) == Pow2(k) - Half(Pow2(k)) == Pow2(k - 1) && Pow2(k) == 2 * Pow2(k - 1)
  {
  }

  lemma SmallLimit(k: nat, limit: nat)
    requires limit < Pow2(k) && k <= 10
    ensures limit / 1024 == 0
  {
    assert Pow2(10) == 1024;
    Pow2Order(k, 10);
  }

  lemma Begin(k: nat, limit: nat)
    requires limit < Pow2(k) && Pow2(k) >= 2
    ensures OnTrack(k, limit, Pow2(k) - Half(Pow2(k)), Half(Pow2(k)), 0, k - 1, 0)
  {
    hide Pow2, Half;
    HalfPow2(k);
    if k <= 10 { SmallLimit(k, limit); }
  }

  /** Both outcomes of an attempt while the step is above 1024. */
  lemma BigStep(k: nat, limit: nat, bufsize: int, delta: int, iter: nat, j: int, m: int)
    requires OnTrack(k, limit, bufsize, delta, iter, j, m) && j >= 11
    ensures delta / 2 >= 1024
    ensures bufsize > limit ==> OnTrack(k, limit, bufsize - delta / 2, delta / 2, iter + 1, j - 1, 2 * m)
    ensures bufsize <= limit ==> OnTrack(k, limit, bufsize + delta / 2, delta / 2, iter + 1, j - 1, 2 * m + 1)
  {
    StepSize(j - 1);
    OddMultiples(Pow2(j - 1), m);
  }

  /** The attempt at step 1024: an odd multiple of 1024. */
  lemma TurningPoint(k: nat, limit: nat, bufsize: int, delta: int, iter: nat, m: int)
    requires OnTrack(k, limit, bufsize, delta, iter, 10, m)
    ensures delta == 1024
    ensures bufsize <= limit ==> bufsize == Granted(limit)
    ensures bufsize > limit ==> OnTrack(k, limit, bufsize - 512, 512, iter + 1, 9, 0)
  {
    assert Pow2(10) == 1024 && Pow2(9) == 512;
    assert bufsize == 1024 * (2 * m + 1);
    if bufsize <= limit {
      assert limit / 1024 == 2 * m + 1;
    } else {
      assert limit / 1024 == 2 * m;
    }
  }

  lemma SmallGranted(limit: nat, j: nat)
    requires limit / 1024 % 2 == 0 && Pow2(j) <= limit % 1024 < 2 * Pow2(j)
    ensures Granted(limit) == limit / 1024 * 1024 + Pow2(j)
  {
    hide Pow2, FloorPow2;
    FloorPow2Between(j, limit % 1024);
  }

  lemma HalfStep(j: int)
    requires j >= 0
    ensures if j == 0 then Pow2(j) == 1 else Pow2(j) == 2 * Pow2(j - 1)
  {
  }

  /** Both outcomes of an attempt below step 1024. */
  lemma SmallStep(k: nat, limit: nat, bufsize: int, delta: int, iter: nat, j: int, m: int)
    requires OnTrack(k, limit, bufsize, delta, iter, j, m) && j < 10
    ensures delta < 1024 && iter <= k
    ensures bufsize <= limit ==> bufsize == Granted(limit)
    ensures bufsize > limit ==>
              var d := if delta > 1 then delta / 2 else delta;
              OnTrack(k, limit, bufsize - d, d, iter + 1, j - 1, 0)
  {
    hide Pow2, FloorPow2;
    if j >= 0 {
      StepSize(j);
      HalfStep(j);
      if bufsize <= limit { SmallGranted(limit, j); }
    } else {
      EvenGranted(limit);
    }
  }

  lemma EvenGranted(limit: nat)
    requires limit % 2048 == 0
    ensures Granted(limit) == limit
  {
  }

  ghost function NextOdd(j: int, m: int, accepted: bool): int {
    if j < 11 then 0 else if accepted then 2 * m + 1 else 2 * m
  }

  /** One turn of the search loop: it ends where it should, or stays on track. */
  lemma OneTurn(k: nat, limit: nat, bufsize: int, delta: int, iter: nat, j: int, m: int)
    requires OnTrack(k, limit, bufsize, delta, iter, j, m)
    ensures var d := if delta > 1 then delta / 2 else delta;
            if bufsize > limit then OnTrack(k, limit, bufsize - d, d, iter + 1, j - 1, NextOdd(j, m, false))
            else if d < 1024 then bufsize == Granted(limit) && iter <= k
            else OnTrack(k, limit, bufsize + d, d, iter + 1, j - 1, NextOdd(j, m, true))
  {
    if j >= 11 {
      BigStep(k, limit, bufsize, delta, iter, j, m);
    } else if j == 10 {
      TurningPoint(k, limit, bufsize, delta, iter, m);
    } else {
      SmallStep(k, limit, bufsize, delta, iter, j, m);
    }
  }

  /** C division by 2, which truncates. */
  function Half(x: int): int {
    if x >= 0 then x / 2 else -(-x / 2)
  }

  /** The search loop's state: between two turns, or left. */
  datatype Loop = Trying(bufsize: int, delta: int) | Left(bufsize: int)

  function Turn(limit: nat, at: Loop): Loop {
    match at
    case Left(_) => at
    case Trying(bufsize, delta) =>
      var d := if delta > 1 then delta / 2 else delta;
      if bufsize > limit then Trying(bufsize - d, d)
      else if d < 1024 then Left(bufsize)
      else Trying(bufsize + d, d)
  }

  /** The state after `n` turns, `start` having been refused. */
  function Turns(limit: nat, start: int, n: nat): Loop {
    if n == 0 then Trying(start - Half(start), Half(start)) else Turn(limit, Turns(limit, start, n - 1))
  }

  /** Refused 1 byte, the loop keeps asking for 1 byte with a step of 0. */
  lemma {:induction false} StuckAtOne(n: nat)
    ensures Turns(0, 1, n) == Trying(1, 0)
  {
    if n > 0 { StuckAtOne(n - 1); }
  }

  /** Starts that are no powers of two can lose more: asked for 3000 bytes of a kernel that grants 2999, the search is
      content with 1500 at once. */
  lemma LosesMore()
    ensures Turns(2999, 3000, 1) == Left(1500)
  {
    assert Turns(2999, 3000, 0) == Trying(1500, 1500);
  }

  /** k_set_sndbuf and k_set_rcvbuf, which differ in the socket option alone.

      Asking for 1 byte of a kernel that grants none never ends: see `StuckAtOne`. */
  method SetBuf(s: Socket, opt: Option, start: int, minsize: int, ghost k: nat)
    returns (bufsize: int, iter: nat, tooSmall: bool)
    requires start <= s.limit || start >= 2
    modifies s
    ensures s.Size(opt) == bufsize <= s.limit
    ensures forall other: Option :: other != opt ==> s.Size(other) == old(s.Size(other))
    ensures start <= s.limit ==> bufsize == start && iter == 0 && !tooSmall
    ensures start > s.limit ==> bufsize >= 0 && tooSmall == (bufsize < minsize)
    ensures start > s.limit ==> s.limit < bufsize + 2047 + iter
    ensures start > s.limit ==> Turns(s.limit, start, iter) == Left(bufsize)
    ensures start > s.limit && start == Pow2(k) ==> bufsize == Granted(s.limit) && 1 <= iter <= k + 1
  {
    hide OnTrack, Granted, Pow2, NextOdd;
    bufsize, iter, tooSmall := start, 0, false;
    var delta := Half(bufsize);
    var ok := s.SetSockOpt(opt, bufsize);
    if !ok {
      bufsize := bufsize - delta;
      ghost var j, m := k - 1, 0;
      if start == Pow2(k) { Begin(k, s.limit); }
      while true
        invariant delta >= 1 && bufsize >= 0 && (bufsize >= delta || delta == 1)
        invariant forall other: Option :: other != opt ==> s.Size(other) == old(s.Size(other))
        invariant s.limit < bufsize + delta + iter
        invariant Turns(s.limit, start, iter) == Trying(bufsize, delta)
        invariant start == Pow2(k) ==> OnTrack(k, s.limit, bufsize, delta, iter, j, m)
        decreases delta, bufsize
      {
        if start == Pow2(k) { OneTurn(k, s.limit, bufsize, delta, iter, j, m); }
        iter := iter + 1;
        if delta > 1 {
          delta := delta / 2;
        }
        ok := s.SetSockOpt(opt, bufsize);
        j, m := j - 1, NextOdd(j, m, ok);
        if !ok {
          bufsize := bufsize - delta;
        } else {
          if delta < 1024 {
            break;
          }
          bufsize := bufsize + delta;
        }
      }
      tooSmall := bufsize < minsize;
    }
  }
}
