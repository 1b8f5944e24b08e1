/** How SHA-1 is followed through a block on literals: the schedule in rows of sixteen words, and the
    rounds in groups of four and sixteen. */
module Traces {
  import opened Sha1Spec
  import Sha1

  // ----- Schedules and rounds, sixteen at a time -----

  // Word j of two rows of sixteen words.
  function WordOf(w: seq<Word>, n: seq<Word>, j: nat): Word
    requires |w| == 16 && |n| == 16 && j < 32
  {
    if j < 16 then w[j] else n[j - 16]
  }

  // Word i of the second row is the one that the schedule has there.
  predicate FollowsAt(w: seq<Word>, n: seq<Word>, i: nat) {
    && |w| == 16 && |n| == 16 && i < 16
    && n[i] == RotL(Xor(WordOf(w, n, i + 13), WordOf(w, n, i + 8), WordOf(w, n, i + 2), WordOf(w, n, i)), 1)
  }

  lemma {:induction false} ScheduleWordIs(block: seq<Word>, n: nat, k: nat)
    requires |block| == 16 && 16 <= k < n
    ensures var s := Schedule(block, n);
            s[k] == RotL(Xor(s[k - 3], s[k - 8], s[k - 14], s[k - 16]), 1)
  {
    hide Xor, RotL;
    if n == k + 1 {
    } else {
      ScheduleWordIs(block, n - 1, k);
    }
  }

  // The rule of the schedule inside 32 words.
  predicate RuleAt(s: seq<Word>, i: nat) {
    |s| == 32 && i < 16 && s[16 + i] == RotL(Xor(s[13 + i], s[8 + i], s[2 + i], s[i]), 1)
  }

  lemma RuleHolds(block: seq<Word>, t: nat, i: nat)
    requires |block| == 16 && t + 32 <= 80 && i < 16
    ensures RuleAt(Schedule(block, 80)[t..t + 32], i)
  {
    ScheduleWordIs(block, 80, t + 16 + i);
    hide Xor, RotL, Schedule;
    var s, part := Schedule(block, 80), Schedule(block, 80)[t..t + 32];
    assert forall j :: 0 <= j < 32 ==> part[j] == s[t + j];
  }

  // The next row of a schedule.
  lemma NextRow(block: seq<Word>, t: nat, w: seq<Word>, n: seq<Word>)
    requires |block| == 16 && t + 32 <= 80 && Schedule(block, 80)[t..t + 16] == w
    requires forall i :: 0 <= i < 16 ==> FollowsAt(w, n, i)
    ensures Schedule(block, 80)[t + 16..t + 32] == n
  {
    hide RuleAt, Schedule;
    assert FollowsAt(w, n, 0);
    var s := Schedule(block, 80)[t..t + 32];
    forall i | 0 <= i < 16
      ensures RuleAt(s, i)
    {
      RuleHolds(block, t, i);
    }
    assert s[..16] == w;
    hide FollowsAt;
    SecondRow(s, w, n, 16);
    assert s[16..] == Schedule(block, 80)[t + 16..t + 32] && n[..16] == n;
  }

  lemma {:induction false} SecondRow(s: seq<Word>, w: seq<Word>, n: seq<Word>, k: nat)
    requires |s| == 32 && s[..16] == w && |n| == 16 && k <= 16
    requires forall i :: 0 <= i < 16 ==> RuleAt(s, i) && FollowsAt(w, n, i)
    ensures s[16..16 + k] == n[..k]
  {
    hide FollowsAt, RuleAt;
    if k == 0 {
    } else {
      SecondRow(s, w, n, k - 1);
      assert RuleAt(s, k - 1) && FollowsAt(w, n, k - 1);
      WordsAgree(s, w, n, k - 1);
      assert s[16..16 + k] == s[16..15 + k] + [s[15 + k]] && n[..k] == n[..k - 1] + [n[k - 1]];
    }
  }

  // One more word of the second row.
  lemma WordsAgree(s: seq<Word>, w: seq<Word>, n: seq<Word>, i: nat)
    requires |s| == 32 && s[..16] == w && i < 16 && FollowsAt(w, n, i) && RuleAt(s, i) && s[16..16 + i] == n[..i]
    ensures s[16 + i] == n[i]
  {
    WordsOf(s, w, n, i);
    hide Xor, RotL, WordOf;
  }

  lemma WordsOf(s: seq<Word>, w: seq<Word>, n: seq<Word>, i: nat)
    requires |s| == 32 && s[..16] == w && |n| == 16 && i < 16 && s[16..16 + i] == n[..i]
    ensures forall j :: 0 <= j < 16 + i ==> s[j] == WordOf(w, n, j)
  {
    assert forall j :: 0 <= j < 16 ==> w[j] == s[j];
    assert forall j :: 0 <= j < i ==> n[j] == n[..i][j] == s[16 + j];
  }

  function Four(v: Working, t: nat, w0: Word, w1: Word, w2: Word, w3: Word): Working {
    Round(Round(Round(Round(v, t, w0), t + 1, w1), t + 2, w2), t + 3, w3)
  }

  function Sixteen(v: Working, t: nat, w: seq<Word>): Working
    requires |w| == 16
  {
    var v4 := Four(v, t, w[0], w[1], w[2], w[3]);
    var v8 := Four(v4, t + 4, w[4], w[5], w[6], w[7]);
    var v12 := Four(v8, t + 8, w[8], w[9], w[10], w[11]);
    Four(v12, t + 12, w[12], w[13], w[14], w[15])
  }

  lemma FourRounds(v: Working, s: seq<Word>, t: nat)
    requires t + 4 <= |s|
    ensures Rounds(v, s, t + 4) == Four(Rounds(v, s, t), t, s[t], s[t + 1], s[t + 2], s[t + 3])
  {
    hide Round;
    assert Rounds(v, s, t + 2) == Round(Round(Rounds(v, s, t), t, s[t]), t + 1, s[t + 1]);
  }

  lemma SixteenRounds(v: Working, s: seq<Word>, t: nat, w: seq<Word>)
    requires t + 16 <= |s| && s[t..t + 16] == w
    ensures Rounds(v, s, t + 16) == Sixteen(Rounds(v, s, t), t, w)
  {
    assert forall i :: 0 <= i < 16 ==> w[i] == s[t + i];
    hide Four, Rounds;
    FourRounds(v, s, t);
    FourRounds(v, s, t + 4);
    FourRounds(v, s, t + 8);
    FourRounds(v, s, t + 12);
  }

  // ----- A block -----

  predicate Rows(w0: seq<Word>, w1: seq<Word>, w2: seq<Word>, w3: seq<Word>, w4: seq<Word>) {
    && |w0| == 16 && |w1| == 16 && |w2| == 16 && |w3| == 16 && |w4| == 16
    && forall i :: 0 <= i < 16 ==>
         FollowsAt(w0, w1, i) && FollowsAt(w1, w2, i) && FollowsAt(w2, w3, i) && FollowsAt(w3, w4, i)
  }

  lemma ScheduleRows(w0: seq<Word>, w1: seq<Word>, w2: seq<Word>, w3: seq<Word>, w4: seq<Word>)
    requires Rows(w0, w1, w2, w3, w4)
    ensures var s := Schedule(w0, 80);
            s[0..16] == w0 && s[16..32] == w1 && s[32..48] == w2 && s[48..64] == w3 && s[64..80] == w4
  {
    hide FollowsAt, Schedule;
    FirstRow(w0);
    NextRow(w0, 0, w0, w1);
    NextRow(w0, 16, w1, w2);
    NextRow(w0, 32, w2, w3);
    NextRow(w0, 48, w3, w4);
  }

  lemma FirstRow(block: seq<Word>)
    requires |block| == 16
    ensures Schedule(block, 80)[0..16] == block
  {
    Sha1.SchedulePrefix(block, 16, 80);
    assert Schedule(block, 16) == block;
  }

  lemma NoRounds(v: Working, s: seq<Word>)
    ensures Rounds(v, s, 0) == v
  {
  }

  lemma CompressedRows(h: Hash, w0: seq<Word>, w1: seq<Word>, w2: seq<Word>, w3: seq<Word>, w4: seq<Word>,
        v0: Working, v1: Working, v2: Working, v3: Working, v4: Working, v5: Working)
    requires Rows(w0, w1, w2, w3, w4) && v0 == Working(h[0], h[1], h[2], h[3], h[4])
    requires Sixteen(v0, 0, w0) == v1 && Sixteen(v1, 16, w1) == v2 && Sixteen(v2, 32, w2) == v3
    requires Sixteen(v3, 48, w3) == v4 && Sixteen(v4, 64, w4) == v5
    ensures Compress(h, w0) == [Add(h[0], v5.a), Add(h[1], v5.b), Add(h[2], v5.c), Add(h[3], v5.d), Add(h[4], v5.e)]
  {
    hide FollowsAt, Sixteen, Schedule, Rounds, Add;
    ScheduleRows(w0, w1, w2, w3, w4);
    var s := Schedule(w0, 80);
    NoRounds(v0, s);
    SixteenRounds(v0, s, 0, w0);
    SixteenRounds(v0, s, 16, w1);
    SixteenRounds(v0, s, 32, w2);
    SixteenRounds(v0, s, 48, w3);
    SixteenRounds(v0, s, 64, w4);
  }
}
