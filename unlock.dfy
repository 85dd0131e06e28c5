/**
 * The unlock gate of the crash screen (crash_screen_wait_for_button_combo in
 * src/crash_screen.c): a cursor over the 10-entry button sequence, advanced by
 * each non-zero controller poll. The controller is replaced by the sequence
 * of values its polls return; the 10 ms sleep between polls is left out.
 */
module UnlockGate {
  import opened Wrappers

  /**
   * gCrashScreenUnlockInputs: up, down, left, right on the D-pad, then the four
   * C buttons in the same order, then B and A, as the libultra controller masks.
   */
  const UnlockInputs: seq<bv16> := [0x0800, 0x0400, 0x0200, 0x0100, 0x0008, 0x0004, 0x0002, 0x0001, 0x4000, 0x8000]

  /** The number of entries; reaching it unlocks the screen. */
  const UnlockLength := 10

  /**
   * The sequence has ten entries, each a single controller button (one bit set,
   * so never the zero an idle poll returns), and no button is used twice.
   */
  lemma UnlockInputsButtons()
    ensures |UnlockInputs| == UnlockLength
    ensures forall k :: 0 <= k < |UnlockInputs| ==> UnlockInputs[k] != 0 && UnlockInputs[k] & (UnlockInputs[k] - 1) == 0
    ensures forall k, m :: 0 <= k < m < |UnlockInputs| ==> UnlockInputs[k] != UnlockInputs[m]
  {
  }

  /**
   * One poll of the loop from cursor i: a zero poll leaves the cursor alone, the
   * expected next button advances it, any other button sends it back to 0
   * without comparing that button with the first entry again.
   */
  function Step(i: int, v: bv16): (j: int)
    requires 0 <= i < UnlockLength
    ensures 0 <= j <= UnlockLength
    ensures v == 0 ==> j == i
    ensures v != 0 ==> (j == i + 1 <==> v == UnlockInputs[i])
    ensures v != 0 && v != UnlockInputs[i] ==> j == 0
  {
    if v != 0 then
      if v == UnlockInputs[i] then i + 1 else 0
    else
      i
  }

  /** The cursor after a run of polls; the loop stops once it reaches 10, so later polls are never read. */
  function CursorAfter(polls: seq<bv16>): (c: int)
    ensures 0 <= c <= UnlockLength
    decreases |polls|
  {
    if polls == [] then 0
    else
      var c := CursorAfter(polls[..|polls| - 1]);
      if c == UnlockLength then c else Step(c, polls[|polls| - 1])
  }

  /** The polls with the zero (no button) values removed. */
  function Pressed(polls: seq<bv16>): (p: seq<bv16>)
    ensures |p| <= |polls|
    ensures forall k :: 0 <= k < |p| ==> p[k] != 0
    decreases |polls|
  {
    if polls == [] then []
    else if polls[|polls| - 1] == 0 then Pressed(polls[..|polls| - 1])
    else Pressed(polls[..|polls| - 1]) + [polls[|polls| - 1]]
  }

  lemma {:induction false} CursorSnoc(polls: seq<bv16>, v: bv16)
    ensures var c := CursorAfter(polls); CursorAfter(polls + [v]) == if c == UnlockLength then c else Step(c, v)
  {
    assert (polls + [v])[..|polls + [v]| - 1] == polls;
  }

  lemma {:induction false} PressedSnoc(polls: seq<bv16>, v: bv16)
    ensures Pressed(polls + [v]) == if v == 0 then Pressed(polls) else Pressed(polls) + [v]
  {
    assert (polls + [v])[..|polls + [v]| - 1] == polls;
  }

  /** Zero polls are invisible to the gate: only the buttons pressed, in order, decide the cursor. */
  lemma {:induction false} ZerosIgnored(polls: seq<bv16>)
    ensures CursorAfter(polls) == CursorAfter(Pressed(polls))
    decreases |polls|
  {
    if polls != [] {
      var init, v := polls[..|polls| - 1], polls[|polls| - 1];
      assert polls == init + [v];
      ZerosIgnored(init);
      CursorSnoc(init, v);
      PressedSnoc(init, v);
      if v != 0 {
        CursorSnoc(Pressed(init), v);
      }
    }
  }

  lemma {:induction false} SuffixSnoc(p: seq<bv16>, v: bv16, c: int)
    requires 0 <= c <= |p|
    ensures var q := p + [v]; c + 1 <= |q| && q[|q| - (c + 1)..] == p[|p| - c..] + [v]
  {
  }

  lemma {:induction false} InputsSnoc(c: int)
    requires 0 <= c < UnlockLength
    ensures UnlockInputs[..c + 1] == UnlockInputs[..c] + [UnlockInputs[c]]
  {
  }

  /** The cursor after the first n + 1 polls, from the cursor after the first n. */
  lemma {:induction false} CursorNext(polls: seq<bv16>, n: int)
    requires 0 <= n < |polls|
    ensures var c := CursorAfter(polls[..n]); CursorAfter(polls[..n + 1]) == if c == UnlockLength then c else Step(c, polls[n])
  {
    assert polls[..n + 1] == polls[..n] + [polls[n]];
    CursorSnoc(polls[..n], polls[n]);
  }

  /** One poll keeps the last buttons pressed in step with the cursor. */
  lemma {:induction false} ProgressStep(p: seq<bv16>, c: int, v: bv16)
    requires 0 <= c < UnlockLength && c <= |p| && p[|p| - c..] == UnlockInputs[..c]
    ensures var c', p' := Step(c, v), if v == 0 then p else p + [v]; c' <= |p'| && p'[|p'| - c'..] == UnlockInputs[..c']
  {
    if v != 0 && v == UnlockInputs[c] {
      SuffixSnoc(p, v, c);
      InputsSnoc(c);
    } else if v != 0 {
      assert (p + [v])[|p + [v]|..] == [] == UnlockInputs[..0];
    }
  }

  /**
   * Up to the poll that unlocks the screen, cursor c means the last c buttons
   * pressed are exactly the first c entries of the sequence.
   */
  lemma {:induction false} CursorMeansProgress(polls: seq<bv16>)
    requires polls != [] ==> CursorAfter(polls[..|polls| - 1]) < UnlockLength
    ensures var c, p := CursorAfter(polls), Pressed(polls); c <= |p| && p[|p| - c..] == UnlockInputs[..c]
    decreases |polls|
  {
    if polls != [] {
      var init := polls[..|polls| - 1];
      CursorMeansProgress(init);
      ProgressStep(Pressed(init), CursorAfter(init), polls[|polls| - 1]);
    }
  }

  /** Polls whose buttons are the first k entries in order, with any zeros between, take cursor 0 to k. */
  lemma {:induction false} SequenceAdvances(polls: seq<bv16>, k: int)
    requires 0 <= k <= UnlockLength && Pressed(polls) == UnlockInputs[..k]
    ensures CursorAfter(polls) == k
    decreases |polls|
  {
    if polls != [] {
      var init, v := polls[..|polls| - 1], polls[|polls| - 1];
      assert polls == init + [v];
      CursorSnoc(init, v);
      PressedSnoc(init, v);
      if v == 0 {
        SequenceAdvances(init, k);
      } else {
        assert Pressed(init) == UnlockInputs[..k - 1] by {
          assert Pressed(init) == UnlockInputs[..k][..k - 1];
        }
        SequenceAdvances(init, k - 1);
      }
    }
  }

  /**
   * The screen unlocks exactly when the ten entries have been pressed in order:
   * the ten buttons alone, with only zeros between them, unlock it, and when the
   * last poll is the one that unlocks it, the last ten buttons pressed are the
   * ten entries.
   */
  lemma UnlockCondition(polls: seq<bv16>)
    ensures Pressed(polls) == UnlockInputs ==> CursorAfter(polls) == UnlockLength
    ensures CursorAfter(polls) == UnlockLength && (polls != [] ==> CursorAfter(polls[..|polls| - 1]) < UnlockLength) ==>
      |Pressed(polls)| >= UnlockLength && Pressed(polls)[|Pressed(polls)| - UnlockLength..] == UnlockInputs
  {
    assert UnlockInputs[..UnlockLength] == UnlockInputs;
    if Pressed(polls) == UnlockInputs {
      SequenceAdvances(polls, UnlockLength);
    }
    if polls != [] ==> CursorAfter(polls[..|polls| - 1]) < UnlockLength {
      CursorMeansProgress(polls);
    }
  }

  /**
   * A wrong button resets the cursor without being compared with the first
   * entry: up, up, then the rest of the sequence, leaves the screen locked
   * although its last ten buttons are the full sequence.
   */
  lemma NoRecheckAfterReset()
    ensures CursorAfter([0x0800] + UnlockInputs) == 0
  {
    var polls := [0x0800] + UnlockInputs;
    var k := 0;
    while k < |polls|
      invariant 0 <= k <= |polls|
      invariant CursorAfter(polls[..k]) == if k == 1 then 1 else 0
    {
      CursorNext(polls, k);
      k := k + 1;
    }
    assert polls[..k] == polls;
  }

  /**
   * The polling loop of crash_screen_wait_for_button_combo over a finite run of
   * polls. Some(n): the screen unlocks on poll n, the first point at which the
   * cursor reaches 10. None: the polls run out while the screen is still locked
   * (the source keeps polling forever).
   */
  method WaitForButtonCombo(polls: seq<bv16>) returns (r: Option<int>)
    ensures r.Some? ==> 0 < r.value <= |polls| && CursorAfter(polls[..r.value]) == UnlockLength
    ensures r.Some? ==> forall m :: 0 <= m < r.value ==> CursorAfter(polls[..m]) < UnlockLength
    ensures r.None? <==> forall m :: 0 <= m <= |polls| ==> CursorAfter(polls[..m]) < UnlockLength
  {
    var breakloop := false;
    var i := 0;
    var n := 0;
    while !breakloop && n < |polls|
      invariant 0 <= n <= |polls| && 0 <= i <= UnlockLength
      invariant i == CursorAfter(polls[..n]) && (breakloop <==> i == UnlockLength)
      invariant forall m :: 0 <= m < n ==> CursorAfter(polls[..m]) < UnlockLength
    {
      var v := polls[n];
      CursorNext(polls, n);
      if v != 0 {
        var expected := UnlockInputs[i];
        i := i + 1;
        if v == expected {
          if i == UnlockLength {
            breakloop := true;
          }
        } else {
          i := 0;
        }
      }
      n := n + 1;
    }
    if breakloop {
      r := Some(n);
    } else {
      r := None;
    }
  }
}
