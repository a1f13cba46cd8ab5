/** The command stream that both repeated-squaring engines record: one round
    per k = 1, 2, 4, ... below n, each round writing the kernel parameters,
    copying the previous product from `out` back into `in` (every round but
    the first), dispatching the min-plus kernel and submitting. */
module Rounds {

  /** `x as u32`: Rust's truncating cast. */
  function U32(x: nat): (r: nat)
    ensures r < 0x1_0000_0000
    ensures x < 0x1_0000_0000 ==> r == x
  {
    x % 0x1_0000_0000
  }

  /** The 8-byte uniform `[n, stride]` every dispatch reads. */
  datatype Params = Params(n: nat, stride: nat)

  /** A dispatch grid, in workgroups. */
  datatype Grid = Grid(x: nat, y: nat, z: nat)

  datatype Command =
    | WriteParams(params: Params)   // staging-belt write of the uniform buffer
    | CopyOutToIn(bytes: nat)       // `copy_buffer_to_buffer(out, 0, in, 0, bytes)`
    | Dispatch(grid: Grid)          // one compute pass of the min-plus kernel
    | Submit                        // `queue.submit` of the round's encoder

  function Pow2(r: nat): (p: nat)
    ensures p >= 1 && (r > 0 ==> p >= 2)
  {
    if r == 0 then 1 else 2 * Pow2(r - 1)
  }

  lemma {:induction false} Pow2Monotone(a: nat, b: nat)
    requires a <= b
    ensures Pow2(a) <= Pow2(b)
    decreases b
  {
    if a < b {
      Pow2Monotone(a, b - 1);
    }
  }

  /** The number of doublings of k = 1 needed to reach n: ceil(log2 n) for
      n >= 2 and 0 for n <= 1; the least r with n <= 2^r. */
  function Log2Ceil(n: nat): (r: nat)
    ensures n <= Pow2(r)
    ensures r == 0 || Pow2(r - 1) < n
    decreases n
  {
    if n <= 1 then 0 else 1 + Log2Ceil((n + 1) / 2)
  }

  /** Only one r has n <= 2^r and 2^(r-1) < n. */
  lemma Log2CeilIsLeast(n: nat, r: nat)
    requires n <= Pow2(r)
    requires r == 0 || Pow2(r - 1) < n
    ensures r == Log2Ceil(n)
  {
    var s := Log2Ceil(n);
    if r < s {
      Pow2Monotone(r, s - 1);
    } else if s < r {
      Pow2Monotone(s, r - 1);
    }
  }

  /** One round: params, the copy (not in the first round), the dispatch, the submit. */
  function Round(first: bool, params: Params, bytes: nat, grid: Grid): seq<Command> {
    [WriteParams(params)] + (if first then [] else [CopyOutToIn(bytes)]) + [Dispatch(grid), Submit]
  }

  /** The commands of the first `rounds` rounds, in submission order. */
  function Schedule(rounds: nat, params: Params, bytes: nat, grid: Grid): seq<Command> {
    if rounds == 0 then []
    else Schedule(rounds - 1, params, bytes, grid) + Round(rounds == 1, params, bytes, grid)
  }

  /** The `while k < n` loop of `TropicalMatmul::run`: k starts at 1 and
      doubles after every round, so the loop runs ceil(log2 n) times and
      exits with k the least power of two that is at least n. */
  method RecordRounds(n: nat, params: Params, bytes: nat, grid: Grid) returns (cmds: seq<Command>, k: nat)
    ensures cmds == Schedule(Log2Ceil(n), params, bytes, grid)
    ensures k == Pow2(Log2Ceil(n)) && n <= k && (n >= 1 ==> k < 2 * n)
  {
    cmds := [];
    k := 1;
    ghost var r := 0;
    while k < n
      invariant k == Pow2(r)
      invariant r == 0 || Pow2(r - 1) < n
      invariant cmds == Schedule(r, params, bytes, grid)
      decreases n - k
    {
      cmds := cmds + [WriteParams(params)];
      if k != 1 {
        cmds := cmds + [CopyOutToIn(bytes)];
      }
      cmds := cmds + [Dispatch(grid), Submit];
      k := k * 2;
      r := r + 1;
    }
    Log2CeilIsLeast(n, r);
    FinalKBounds(n);
  }

  /** The least power of two that is at least n is below 2n whenever n >= 1. */
  lemma FinalKBounds(n: nat)
    ensures n <= Pow2(Log2Ceil(n))
    ensures n >= 1 ==> Pow2(Log2Ceil(n)) < 2 * n
  {
  }

  /** Every command of the schedule is one of the four of a round, with the
      same params, copy length and grid in every round. */
  lemma {:induction false} ScheduleUsesFixedValues(rounds: nat, params: Params, bytes: nat, grid: Grid)
    ensures forall c | c in Schedule(rounds, params, bytes, grid) :: c in {WriteParams(params), CopyOutToIn(bytes), Dispatch(grid), Submit}
  {
    if rounds > 0 {
      ScheduleUsesFixedValues(rounds - 1, params, bytes, grid);
      var prev := Schedule(rounds - 1, params, bytes, grid);
      var round := Round(rounds == 1, params, bytes, grid);
      forall c | c in prev + round
        ensures c in {WriteParams(params), CopyOutToIn(bytes), Dispatch(grid), Submit}
      {
        if c !in prev {
          assert c == WriteParams(params) || c == CopyOutToIn(bytes) || c == Dispatch(grid) || c == Submit;
        }
      }
    }
  }

  /** The number of dispatches in a command stream. */
  function Dispatches(cmds: seq<Command>): nat {
    if cmds == [] then 0
    else Dispatches(cmds[..|cmds| - 1]) + (if cmds[|cmds| - 1].Dispatch? then 1 else 0)
  }

  /** The number of out-to-in copies in a command stream. */
  function Copies(cmds: seq<Command>): nat {
    if cmds == [] then 0
    else Copies(cmds[..|cmds| - 1]) + (if cmds[|cmds| - 1].CopyOutToIn? then 1 else 0)
  }

  lemma {:induction false} CountsOfConcat(a: seq<Command>, b: seq<Command>)
    ensures Dispatches(a + b) == Dispatches(a) + Dispatches(b)
    ensures Copies(a + b) == Copies(a) + Copies(b)
    decreases |b|
  {
    if b == [] {
      assert a + b == a;
    } else {
      var b' := b[..|b| - 1];
      assert (a + b)[..|a + b| - 1] == a + b';
      CountsOfConcat(a, b');
    }
  }

  /** One dispatch per round, one copy per round after the first. */
  lemma {:induction false} ScheduleCounts(rounds: nat, params: Params, bytes: nat, grid: Grid)
    ensures Dispatches(Schedule(rounds, params, bytes, grid)) == rounds
    ensures Copies(Schedule(rounds, params, bytes, grid)) == if rounds == 0 then 0 else rounds - 1
  {
    if rounds > 0 {
      var round := Round(rounds == 1, params, bytes, grid);
      ScheduleCounts(rounds - 1, params, bytes, grid);
      CountsOfConcat(Schedule(rounds - 1, params, bytes, grid), round);
      var w := [WriteParams(params)];
      var c := if rounds == 1 then [] else [CopyOutToIn(bytes)];
      var ds := [Dispatch(grid), Submit];
      assert round == (w + c) + ds;
      CountsOfConcat(w + c, ds);
      CountsOfConcat(w, c);
      assert Dispatches(ds) == 1 by {
        assert ds[..1] == [Dispatch(grid)];
        assert [Dispatch(grid)][..0] == [];
      }
      assert Copies(ds) == 0 by {
        assert ds[..1] == [Dispatch(grid)];
        assert [Dispatch(grid)][..0] == [];
      }
      assert w[..0] == [];
      if rounds > 1 {
        assert c[..0] == [];
      }
    }
  }

  /** The first dispatch is the second command and has no copy before it;
      every later dispatch comes right after a copy of `bytes` bytes. */
  ghost predicate DispatchesFollowCopies(cmds: seq<Command>, bytes: nat) {
    forall t | 0 <= t < |cmds| && cmds[t].Dispatch? :: t == 1 || (t >= 2 && cmds[t - 1] == CopyOutToIn(bytes))
  }

  /** Every copy comes after the first dispatch and is followed right away by
      a dispatch. */
  ghost predicate CopiesFeedDispatches(cmds: seq<Command>) {
    forall t | 0 <= t < |cmds| && cmds[t].CopyOutToIn? :: t > 1 && t + 1 < |cmds| && cmds[t + 1].Dispatch?
  }

  /** A round after the first adds four commands; the first adds three. */
  lemma {:induction false} ScheduleLength(rounds: nat, params: Params, bytes: nat, grid: Grid)
    ensures |Schedule(rounds, params, bytes, grid)| == if rounds == 0 then 0 else 4 * rounds - 1
  {
    if rounds > 0 {
      ScheduleLength(rounds - 1, params, bytes, grid);
    }
  }

  /** Appending a later round keeps the dispatch half of the pattern. */
  lemma AppendKeepsDispatches(prev: seq<Command>, params: Params, bytes: nat, grid: Grid)
    requires |prev| >= 3 && DispatchesFollowCopies(prev, bytes)
    ensures DispatchesFollowCopies(prev + Round(false, params, bytes, grid), bytes)
  {
    var last := Round(false, params, bytes, grid);
    assert last == [WriteParams(params), CopyOutToIn(bytes), Dispatch(grid), Submit];
    var cmds := prev + last;
    forall t | 0 <= t < |cmds| && cmds[t].Dispatch?
      ensures t == 1 || (t >= 2 && cmds[t - 1] == CopyOutToIn(bytes))
    {
      if t < |prev| {
        assert cmds[t] == prev[t];
        if t >= 2 {
          assert cmds[t - 1] == prev[t - 1];
        }
      } else {
        assert cmds[t] == last[t - |prev|];
        assert t == |prev| + 2;
        assert cmds[t - 1] == last[1];
      }
    }
  }

  /** Appending a later round keeps the copy half of the pattern. */
  lemma AppendKeepsCopies(prev: seq<Command>, params: Params, bytes: nat, grid: Grid)
    requires |prev| >= 3 && CopiesFeedDispatches(prev)
    ensures CopiesFeedDispatches(prev + Round(false, params, bytes, grid))
  {
    var last := Round(false, params, bytes, grid);
    assert last == [WriteParams(params), CopyOutToIn(bytes), Dispatch(grid), Submit];
    var cmds := prev + last;
    forall t | 0 <= t < |cmds| && cmds[t].CopyOutToIn?
      ensures t > 1 && t + 1 < |cmds| && cmds[t + 1].Dispatch?
    {
      if t < |prev| {
        assert cmds[t] == prev[t] && cmds[t + 1] == prev[t + 1];
      } else {
        assert cmds[t] == last[t - |prev|];
        assert t == |prev| + 1;
        assert cmds[t + 1] == last[2];
      }
    }
  }

  /** The schedule keeps both halves of the copy pattern: the first dispatch
      reads the staged matrix, every later one reads the previous product. */
  lemma {:induction false} CopyPrecedesLaterDispatches(rounds: nat, params: Params, bytes: nat, grid: Grid)
    ensures DispatchesFollowCopies(Schedule(rounds, params, bytes, grid), bytes)
    ensures CopiesFeedDispatches(Schedule(rounds, params, bytes, grid))
  {
    if rounds == 1 {
      assert Schedule(rounds, params, bytes, grid) == [WriteParams(params), Dispatch(grid), Submit];
    } else if rounds > 1 {
      CopyPrecedesLaterDispatches(rounds - 1, params, bytes, grid);
      ScheduleLength(rounds - 1, params, bytes, grid);
      AppendKeepsDispatches(Schedule(rounds - 1, params, bytes, grid), params, bytes, grid);
      AppendKeepsCopies(Schedule(rounds - 1, params, bytes, grid), params, bytes, grid);
    }
  }

  /** The repository's own test sizes: 7 rounds for n = 100 and 9 for n = 512. */
  lemma RoundsForTestSizes()
    ensures Log2Ceil(100) == 7 && Log2Ceil(512) == 9
  {
    assert Pow2(6) == 64 && Pow2(7) == 128 && Pow2(8) == 256 && Pow2(9) == 512;
    Log2CeilIsLeast(100, 7);
    Log2CeilIsLeast(512, 9);
  }
}
