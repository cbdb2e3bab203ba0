/** How a loop of transfers ends, spelled out over the kernel's answers and what there is to move. */
module Transfers {
  import opened Sockets

  function Sum(answers: seq<int>): int {
    if answers == [] then 0 else answers[0] + Sum(answers[1..])
  }

  /** The first `k` answers all moved something, and after them more than they moved is wanted. */
  ghost predicate GoesOn(answers: seq<int>, length: nat, avail: nat, k: nat) {
    && k <= |answers| && (forall i | 0 <= i < k :: answers[i] > 0)
    && (k > 0 ==> Sum(answers[..k - 1]) < avail)
    && Min(Sum(answers[..k]), avail) < length
  }

  /** After `k` answers that moved something the next is an error, or there is none. */
  ghost predicate ErrorAt(answers: seq<int>, length: nat, avail: nat, k: nat) {
    GoesOn(answers, length, avail, k) && (k == |answers| || answers[k] < 0)
  }

  ghost predicate EndsInError(answers: seq<int>, length: nat, avail: nat) {
    exists k: nat :: ErrorAt(answers, length, avail, k)
  }

  /** After `k` answers that moved something the next is no error but moves nothing: the kernel gives nothing, or nothing
      is left to move. */
  ghost predicate NothingAt(answers: seq<int>, length: nat, avail: nat, k: nat) {
    && GoesOn(answers, length, avail, k) && k < |answers| && answers[k] >= 0
    && (answers[k] == 0 || Sum(answers[..k]) >= avail)
  }

  ghost predicate EndsInNothing(answers: seq<int>, length: nat, avail: nat) {
    exists k: nat :: NothingAt(answers, length, avail, k)
  }

  /** The first `k` answers are the ones that move `n` bytes. */
  ghost predicate Spent(answers: seq<int>, n: nat, k: nat) {
    && k <= |answers| && (forall i | 0 <= i < k :: answers[i] > 0)
    && Sum(answers[..k]) >= n && (k > 0 ==> Sum(answers[..k - 1]) < n)
  }

  ghost predicate Completes(answers: seq<int>, length: nat, avail: nat) {
    length <= avail && exists k: nat :: Spent(answers, length, k)
  }

  /** What the answers up to the first that moves nothing add up to. */
  function Ready(answers: seq<int>): nat {
    if answers == [] || answers[0] <= 0 then 0 else answers[0] + Ready(answers[1..])
  }

  /** A loop moves the least of what is wanted, what is there, and what the kernel is ready to move. */
  lemma {:induction false} MovesReady(answers: seq<int>, length: nat, avail: nat)
    ensures Moves(answers, length, avail) == Min(Min(length, avail), Ready(answers))
    decreases length
  {
    if length == 0 {
    } else {
      var rt := Reply(answers, Min(length, avail));
      if rt > 0 {
        MovesReady(Rest(answers), length - rt, avail - rt);
      }
    }
  }

  lemma {:induction false} SumNotNegative(answers: seq<int>)
    requires forall i | 0 <= i < |answers| :: answers[i] >= 0
    ensures Sum(answers) >= 0
  {
    if answers == [] {
    } else {
      SumNotNegative(answers[1..]);
    }
  }

  lemma SumTail(answers: seq<int>, k: nat)
    requires 0 < k <= |answers|
    ensures Sum(answers[..k]) == answers[0] + Sum(answers[1..][..k - 1])
  {
    assert answers[..k][1..] == answers[1..][..k - 1];
  }

  /** Counting from the second answer on, after one that moved something. */
  lemma GoesOnBehind(answers: seq<int>, length: nat, avail: nat, k: nat)
    requires answers != [] && answers[0] > 0 && length > 0 && avail > 0
    ensures var rt := Min(answers[0], Min(length, avail));
            GoesOn(answers, length, avail, k + 1) <==> GoesOn(answers[1..], length - rt, avail - rt, k)
  {
    var rest := answers[1..];
    if k <= |rest| && forall i | 0 <= i < k :: rest[i] > 0 {
      assert forall i | 0 < i < k + 1 :: answers[i] == rest[i - 1];
      SumTail(answers, k + 1);
      SumNotNegative(rest[..k]);
      if k > 0 {
        SumTail(answers, k);
        SumNotNegative(rest[..k - 1]);
      }
    } else if k + 1 <= |answers| {
      var i :| 0 <= i < k && rest[i] <= 0;
      assert answers[i + 1] <= 0;
    }
  }

  lemma GoesOnFirst(answers: seq<int>, length: nat, avail: nat)
    requires length > 0
    ensures GoesOn(answers, length, avail, 0)
    ensures forall k: nat | k > 0 && GoesOn(answers, length, avail, k) :: answers != [] && answers[0] > 0 && avail > 0
  {
    assert answers[..0] == [];
    forall k: nat | k > 0 && GoesOn(answers, length, avail, k)
      ensures answers != [] && answers[0] > 0 && avail > 0
    {
      SumNotNegative(answers[..k - 1]);
    }
  }

  lemma ErrorAtBehind(answers: seq<int>, length: nat, avail: nat, k: nat)
    requires answers != [] && answers[0] > 0 && length > 0 && avail > 0
    ensures var rt := Min(answers[0], Min(length, avail));
            ErrorAt(answers, length, avail, k + 1) <==> ErrorAt(answers[1..], length - rt, avail - rt, k)
  {
    hide GoesOn;
    GoesOnBehind(answers, length, avail, k);
    GoesOnBounds(answers, length, avail, k + 1);
  }

  lemma GoesOnBounds(answers: seq<int>, length: nat, avail: nat, k: nat)
    ensures GoesOn(answers, length, avail, k) ==> k <= |answers|
  {
  }

  lemma ErrorBehind(answers: seq<int>, length: nat, avail: nat)
    requires answers != [] && answers[0] > 0 && length > 0 && avail > 0
    ensures var rt := Min(answers[0], Min(length, avail));
            EndsInError(answers, length, avail) <==> EndsInError(answers[1..], length - rt, avail - rt)
  {
    hide ErrorAt;
    ErrorAtFirst(answers, length, avail);
    var rt := Min(answers[0], Min(length, avail));
    if EndsInError(answers, length, avail) {
      var k: nat :| ErrorAt(answers, length, avail, k);
      ErrorAtBehind(answers, length, avail, k - 1);
    }
    if EndsInError(answers[1..], length - rt, avail - rt) {
      var k: nat :| ErrorAt(answers[1..], length - rt, avail - rt, k);
      ErrorAtBehind(answers, length, avail, k);
    }
  }

  lemma ErrorAtFirst(answers: seq<int>, length: nat, avail: nat)
    requires length > 0
    ensures ErrorAt(answers, length, avail, 0) <==> answers == [] || answers[0] < 0
    ensures forall k: nat | k > 0 && ErrorAt(answers, length, avail, k) :: answers != [] && answers[0] > 0 && avail > 0
  {
    hide GoesOn;
    GoesOnFirst(answers, length, avail);
  }

  /** A loop fails exactly when it meets an error before it has moved all it should and while nothing else ends it. */
  lemma {:induction false} FailsIff(answers: seq<int>, length: nat, avail: nat)
    ensures MovesFails(answers, length, avail) <==> EndsInError(answers, length, avail)
    decreases length
  {
    if length == 0 {
      NeverAtZero(answers, avail);
    } else {
      hide ErrorAt;
      ErrorAtFirst(answers, length, avail);
      OneMove(answers, length, avail);
      if answers != [] && answers[0] > 0 && avail > 0 {
        var rt := Min(answers[0], Min(length, avail));
        ErrorBehind(answers, length, avail);
        FailsIff(answers[1..], length - rt, avail - rt);
      }
    }
  }

  lemma NeverAtZero(answers: seq<int>, avail: nat)
    ensures forall k: nat :: !GoesOn(answers, 0, avail, k)
  {
    forall k: nat
      ensures !GoesOn(answers, 0, avail, k)
    {
      if GoesOn(answers, 0, avail, k) {
        SumNotNegative(answers[..k]);
      }
    }
  }

  lemma NothingAtBehind(answers: seq<int>, length: nat, avail: nat, k: nat)
    requires answers != [] && answers[0] > 0 && length > 0 && avail > 0
    ensures var rt := Min(answers[0], Min(length, avail));
            NothingAt(answers, length, avail, k + 1) <==> NothingAt(answers[1..], length - rt, avail - rt, k)
  {
    hide GoesOn, Sum;
    var rt := Min(answers[0], Min(length, avail));
    GoesOnBehind(answers, length, avail, k);
    GoesOnBounds(answers, length, avail, k + 1);
    if k + 1 < |answers| && GoesOn(answers[1..], length - rt, avail - rt, k) {
      UsedUpBehind(answers, length, avail, k);
    }
  }

  lemma NothingAtFirst(answers: seq<int>, length: nat, avail: nat)
    requires length > 0
    ensures NothingAt(answers, length, avail, 0) <==> answers != [] && answers[0] >= 0 && (answers[0] == 0 || avail == 0)
    ensures forall k: nat | k > 0 && NothingAt(answers, length, avail, k) :: answers != [] && answers[0] > 0 && avail > 0
  {
    assert answers[..0] == [];
    hide GoesOn;
    GoesOnFirst(answers, length, avail);
  }

  lemma NothingBehind(answers: seq<int>, length: nat, avail: nat)
    requires answers != [] && answers[0] > 0 && length > 0 && avail > 0
    ensures var rt := Min(answers[0], Min(length, avail));
            EndsInNothing(answers, length, avail) <==> EndsInNothing(answers[1..], length - rt, avail - rt)
  {
    hide NothingAt;
    NothingAtFirst(answers, length, avail);
    var rt := Min(answers[0], Min(length, avail));
    if EndsInNothing(answers, length, avail) {
      var k: nat :| NothingAt(answers, length, avail, k);
      NothingAtBehind(answers, length, avail, k - 1);
    }
    if EndsInNothing(answers[1..], length - rt, avail - rt) {
      var k: nat :| NothingAt(answers[1..], length - rt, avail - rt, k);
      NothingAtBehind(answers, length, avail, k);
    }
  }

  lemma UsedUpBehind(answers: seq<int>, length: nat, avail: nat, k: nat)
    requires answers != [] && answers[0] > 0 && length > 0 && avail > 0 && k < |answers|
    requires var rt := Min(answers[0], Min(length, avail)); GoesOn(answers[1..], length - rt, avail - rt, k)
    ensures var rt := Min(answers[0], Min(length, avail));
            Sum(answers[..k + 1]) >= avail <==> Sum(answers[1..][..k]) >= avail - rt
  {
    SumTail(answers, k + 1);
    SumNotNegative(answers[1..][..k]);
  }

  lemma {:induction false} EndsIff(answers: seq<int>, length: nat, avail: nat)
    ensures Moves(answers, length, avail) < length && !MovesFails(answers, length, avail)
            <==> EndsInNothing(answers, length, avail)
    decreases length
  {
    if length == 0 {
      NeverAtZero(answers, avail);
    } else {
      hide NothingAt;
      NothingAtFirst(answers, length, avail);
      OneMove(answers, length, avail);
      if answers != [] && answers[0] > 0 && avail > 0 {
        var rt := Min(answers[0], Min(length, avail));
        NothingBehind(answers, length, avail);
        EndsIff(answers[1..], length - rt, avail - rt);
      }
    }
  }

  lemma SpentBehind(answers: seq<int>, n: nat, k: nat)
    requires answers != [] && answers[0] > 0 && n > 0
    ensures Spent(answers, n, k + 1) <==> Spent(answers[1..], n - Min(answers[0], n), k)
  {
    var rest := answers[1..];
    if k <= |rest| && forall i | 0 <= i < k :: rest[i] > 0 {
      assert forall i | 0 < i < k + 1 :: answers[i] == rest[i - 1];
      SumTail(answers, k + 1);
      SumNotNegative(rest[..k]);
      if k > 0 {
        SumTail(answers, k);
        SumNotNegative(rest[..k - 1]);
      }
    } else if k + 1 <= |answers| {
      var i :| 0 <= i < k && rest[i] <= 0;
      assert answers[i + 1] <= 0;
    }
  }

  lemma SpentFirst(answers: seq<int>, n: nat)
    ensures Spent(answers, n, 0) <==> n == 0
    ensures forall k: nat | k > 0 && Spent(answers, n, k) :: answers != [] && answers[0] > 0 && n > 0
  {
    assert answers[..0] == [];
    forall k: nat | k > 0 && Spent(answers, n, k)
      ensures answers != [] && answers[0] > 0 && n > 0
    {
      SumNotNegative(answers[..k - 1]);
    }
  }

  /** A loop that has all it wants before it used exactly the answers that moved it. */
  lemma {:induction false} CompletesWith(answers: seq<int>, length: nat, avail: nat, k: nat)
    requires length <= avail && Spent(answers, length, k)
    ensures Moves(answers, length, avail) == length && MovesRest(answers, length, avail) == answers[k..]
    decreases length
  {
    SpentFirst(answers, length);
    if length > 0 {
      var rt := Min(answers[0], length);
      SpentBehind(answers, length, k - 1);
      CompletesWith(answers[1..], length - rt, avail - rt, k - 1);
    }
  }

  lemma {:induction false} CompletesIff(answers: seq<int>, length: nat, avail: nat)
    ensures Moves(answers, length, avail) == length <==> Completes(answers, length, avail)
    decreases length
  {
    SpentFirst(answers, length);
    if Completes(answers, length, avail) {
      var k: nat :| Spent(answers, length, k);
      CompletesWith(answers, length, avail, k);
    } else if length > 0 && Moves(answers, length, avail) == length {
      var rt := Min(answers[0], Min(length, avail));
      CompletesIff(answers[1..], length - rt, avail - rt);
      var k: nat :| Spent(answers[1..], length - rt, k);
      SpentBehind(answers, length, k);
    }
  }

  /** Only one number of answers will do. */
  lemma SpentOnce(answers: seq<int>, n: nat, j: nat, k: nat)
    requires Spent(answers, n, j) && Spent(answers, n, k)
    ensures j == k
  {
    if j < k {
      SumGrows(answers, j, k - 1);
    } else if k < j {
      SumGrows(answers, k, j - 1);
    }
  }

  lemma {:induction false} SumGrows(answers: seq<int>, j: nat, k: nat)
    requires j <= k <= |answers| && forall i | 0 <= i < k :: answers[i] > 0
    ensures Sum(answers[..j]) <= Sum(answers[..k])
    decreases k
  {
    if k == 0 {
    } else if j == 0 {
      assert answers[..0] == [];
      SumNotNegative(answers[..k]);
    } else {
      SumTail(answers, j);
      SumTail(answers, k);
      SumGrows(answers[1..], j - 1, k - 1);
    }
  }
}
