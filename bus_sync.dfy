/**
 * `bus_packet_SyncFrameDetect`: the byte-at-a-time detector of the attached
 * sync marker 0x1ACFFC1D that precedes a bus packet on the wire. The state is
 * a one-hot flag; each matching byte shifts it left, a mismatching byte is
 * re-tested against the marker's first byte.
 */
module BusSync {

  import opened Bytes

  /** BUS_PACKET_FRAME_SYNC. */
  const MARKER: seq<byte> := [0x1A, 0xCF, 0xFC, 0x1D]

  /** The named values of bus_sync_flag_t. */
  const FIND: nat := 1
  const SYNC_2: nat := 2
  const SYNC_3: nat := 4
  const SYNC_4: nat := 8
  const COMPLETED: nat := 16

  /**
   * The `_first_sync_byte` label shared by the FIND and `default` cases and
   * jumped to on every mismatch: a byte other than the first marker byte
   * resets to FIND, the first marker byte shifts the CURRENT flag.
   */
  function Retest(flag: nat, b: byte): nat {
    if b != MARKER[0] then FIND else flag * 2
  }

  /** bus_packet_SyncFrameDetect(flag, b), the enum widened to an integer. */
  function Next(flag: nat, b: byte): nat {
    if flag == SYNC_2 then (if b == MARKER[1] then flag * 2 else Retest(flag, b))
    else if flag == SYNC_3 then (if b == MARKER[2] then flag * 2 else Retest(flag, b))
    else if flag == SYNC_4 then (if b == MARKER[3] then flag * 2 else Retest(flag, b))
    else Retest(flag, b)
  }

  /** The flag after feeding the bytes of `s` one at a time, as a receive loop does. */
  function Run(flag: nat, s: seq<byte>): nat {
    if |s| == 0 then flag else Next(Run(flag, s[..|s| - 1]), s[|s| - 1])
  }

  /** The byte a state waits for, if it is one of the three middle states. */
  function Expected(flag: nat): Option<byte> {
    if flag == SYNC_2 then Some(MARKER[1])
    else if flag == SYNC_3 then Some(MARKER[2])
    else if flag == SYNC_4 then Some(MARKER[3])
    else None
  }

  /**
   * The whole transition function in three rules: the expected byte shifts
   * the flag, a first marker byte that is not expected also shifts it (the
   * re-test), any other byte resets to FIND — from every state, COMPLETED
   * and values outside the enum included.
   */
  lemma NextCases(flag: nat, b: byte)
    ensures Expected(flag) == Some(b) ==> Next(flag, b) == flag * 2
    ensures Expected(flag) != Some(b) && b == MARKER[0] ==> Next(flag, b) == flag * 2
    ensures Expected(flag) != Some(b) && b != MARKER[0] ==> Next(flag, b) == FIND
  {
  }

  /** Feeding the marker from FIND walks SYNC_2, SYNC_3, SYNC_4, COMPLETED. */
  lemma MarkerWalk()
    ensures Next(FIND, MARKER[0]) == SYNC_2
    ensures Next(SYNC_2, MARKER[1]) == SYNC_3
    ensures Next(SYNC_3, MARKER[2]) == SYNC_4
    ensures Next(SYNC_4, MARKER[3]) == COMPLETED
    ensures Run(FIND, MARKER) == COMPLETED
  {
    var m := MARKER;
    assert m[..1][..0] == [];
    assert Run(FIND, m[..1]) == SYNC_2;
    assert m[..2][..1] == m[..1];
    assert Run(FIND, m[..2]) == SYNC_3;
    assert m[..3][..2] == m[..2];
    assert Run(FIND, m[..3]) == SYNC_4;
    assert m[..4][..3] == m[..3];
    assert m[..4] == m;
  }

  /** Run over one more byte takes one more step. */
  lemma RunSnoc(flag: nat, s: seq<byte>, b: byte)
    ensures Run(flag, s + [b]) == Next(Run(flag, s), b)
  {
    assert (s + [b])[..|s|] == s;
  }

  /** Run over a concatenation continues from the state after the first part. */
  lemma {:induction false} RunAppend(flag: nat, a: seq<byte>, b: seq<byte>)
    ensures Run(flag, a + b) == Run(Run(flag, a), b)
  {
    if |b| == 0 {
      assert a + b == a;
    } else {
      RunAppend(flag, a, b[..|b| - 1]);
      assert (a + b)[..|a + b| - 1] == a + b[..|b| - 1];
    }
  }

  // ---------------------------------------------------------------------
  // What the re-test does to detection.

  /** `s` ends with the marker. */
  predicate EndsWithMarker(s: seq<byte>) {
    |s| >= 4 && s[|s| - 4..] == MARKER
  }

  /** Four bytes that are not the marker still report COMPLETED. */
  lemma FalseDetection()
    ensures !EndsWithMarker([0x1A, 0x1A, 0xFC, 0x1D])
    ensures Run(FIND, [0x1A, 0x1A, 0xFC, 0x1D]) == COMPLETED
  {
    var s: seq<byte> := [0x1A, 0x1A, 0xFC, 0x1D];
    assert !EndsWithMarker(s) by {
      assert s[|s| - 4..] == s;
      assert s[1] != MARKER[1];
    }
    var s0: seq<byte> := [];
    var s1 := s0 + [0x1A];
    var s2 := s1 + [0x1A];
    var s3 := s2 + [0xFC];
    RunSnoc(FIND, s0, 0x1A);
    RunSnoc(FIND, s1, 0x1A);
    RunSnoc(FIND, s2, 0xFC);
    RunSnoc(FIND, s3, 0x1D);
    assert s3 + [0x1D] == s;
  }

  /** A marker right after a broken one is missed. */
  lemma MissedMarker()
    ensures EndsWithMarker([0x1A, 0xCF, 0x1A, 0xCF, 0xFC, 0x1D])
    ensures Run(FIND, [0x1A, 0xCF, 0x1A, 0xCF, 0xFC, 0x1D]) == FIND
  {
    var s: seq<byte> := [0x1A, 0xCF, 0x1A, 0xCF, 0xFC, 0x1D];
    assert EndsWithMarker(s) by {
      assert s[|s| - 4..] == s[2..] == MARKER;
    }
    var s0: seq<byte> := [];
    var s1 := s0 + [0x1A];
    var s2 := s1 + [0xCF];
    var s3 := s2 + [0x1A];
    var s4 := s3 + [0xCF];
    var s5 := s4 + [0xFC];
    RunSnoc(FIND, s0, 0x1A);
    RunSnoc(FIND, s1, 0xCF);
    RunSnoc(FIND, s2, 0x1A);
    RunSnoc(FIND, s3, 0xCF);
    RunSnoc(FIND, s4, 0xFC);
    RunSnoc(FIND, s5, 0x1D);
    assert s5 + [0x1D] == s;
  }

  /** After COMPLETED a first marker byte leaves the five named values. */
  lemma PastCompleted()
    ensures Next(COMPLETED, MARKER[0]) == 32
  {
  }

  /** The detector as evidently intended: a restarting first marker byte means SYNC_2. */
  function NextFixed(flag: nat, b: byte): nat {
    if Expected(flag) == Some(b) then flag * 2
    else if b == MARKER[0] then SYNC_2
    else FIND
  }

  function RunFixed(flag: nat, s: seq<byte>): nat {
    if |s| == 0 then flag else NextFixed(RunFixed(flag, s[..|s| - 1]), s[|s| - 1])
  }

  /** `s` ends with the first `k` marker bytes. */
  predicate EndsWithPrefix(s: seq<byte>, k: nat)
    requires k <= 4
  {
    k == 0 || (|s| > 0 && s[|s| - 1] == MARKER[k - 1] && EndsWithPrefix(s[..|s| - 1], k - 1))
  }

  /** `EndsWithPrefix` read as a comparison of the last `k` bytes with the marker's first `k`. */
  lemma {:induction false} PrefixAsSlice(s: seq<byte>, k: nat)
    requires k <= 4
    ensures EndsWithPrefix(s, k) <==> |s| >= k && s[|s| - k..] == MARKER[..k]
  {
    if k > 0 && |s| > 0 {
      var p := s[..|s| - 1];
      PrefixAsSlice(p, k - 1);
      assert MARKER[..k] == MARKER[..k - 1] + [MARKER[k - 1]];
      if |s| >= k {
        assert s[|s| - k..] == p[|p| - (k - 1)..] + [s[|s| - 1]];
      }
    }
  }

  /** How much of the marker the end of `s` matches (the longest such prefix). */
  function Matched(s: seq<byte>): (k: nat)
    ensures k <= 4 && EndsWithPrefix(s, k)
  {
    if EndsWithPrefix(s, 4) then 4
    else if EndsWithPrefix(s, 3) then 3
    else if EndsWithPrefix(s, 2) then 2
    else if EndsWithPrefix(s, 1) then 1
    else 0
  }

  /** The one-hot flag of a match length. */
  function Flag(k: nat): nat
    requires k <= 4
  {
    if k == 0 then FIND else 2 * Flag(k - 1)
  }

  /**
   * The marker's bytes are distinct, so the end of `s` matches at most one
   * nonzero prefix length, and that one is `Matched(s)`.
   */
  lemma PrefixIsMatched(s: seq<byte>, j: nat)
    requires 1 <= j <= 4
    ensures EndsWithPrefix(s, j) <==> Matched(s) == j
  {
    assert MARKER[0] == 0x1A && MARKER[1] == 0xCF && MARKER[2] == 0xFC && MARKER[3] == 0x1D;
  }

  /** Extending `s` by `b` extends a matched prefix exactly when `b` is the next marker byte. */
  lemma ExtendPrefix(s: seq<byte>, b: byte, j: nat)
    requires 1 <= j <= 4
    ensures EndsWithPrefix(s + [b], j) <==> EndsWithPrefix(s, j - 1) && b == MARKER[j - 1]
  {
    assert (s + [b])[..|s|] == s;
  }

  /** The match length after one more byte, from the match length before it. */
  lemma MatchedOfLast(s: seq<byte>, b: byte)
    ensures Matched(s + [b]) ==
      if Matched(s) < 4 && b == MARKER[Matched(s)] then Matched(s) + 1
      else if b == MARKER[0] then 1
      else 0
  {
    var k := Matched(s);
    assert EndsWithPrefix(s + [b], 4) <==> k == 3 && b == MARKER[3] by {
      ExtendPrefix(s, b, 4);
      PrefixIsMatched(s, 3);
    }
    assert EndsWithPrefix(s + [b], 3) <==> k == 2 && b == MARKER[2] by {
      ExtendPrefix(s, b, 3);
      PrefixIsMatched(s, 2);
    }
    assert EndsWithPrefix(s + [b], 2) <==> k == 1 && b == MARKER[1] by {
      ExtendPrefix(s, b, 2);
      PrefixIsMatched(s, 1);
    }
    assert EndsWithPrefix(s + [b], 1) <==> b == MARKER[0] by {
      ExtendPrefix(s, b, 1);
      assert EndsWithPrefix(s, 0);
    }
    assert MARKER[0] == 0x1A && MARKER[1] == 0xCF && MARKER[2] == 0xFC && MARKER[3] == 0x1D;
  }

  /** The fixed transition on one-hot codes is the match-length update. */
  lemma NextFixedOfFlag(k: nat, b: byte)
    requires k <= 4
    ensures NextFixed(Flag(k), b) ==
      Flag(if k < 4 && b == MARKER[k] then k + 1 else if b == MARKER[0] then 1 else 0)
  {
    assert Flag(1) == 2 && Flag(2) == 4 && Flag(3) == 8 && Flag(4) == 16;
    assert MARKER[0] == 0x1A && MARKER[1] == 0xCF && MARKER[2] == 0xFC && MARKER[3] == 0x1D;
  }

  /** The fixed detector's flag is always the one-hot code of the matched length. */
  lemma {:induction false} RunFixedTracksMatch(s: seq<byte>)
    ensures RunFixed(FIND, s) == Flag(Matched(s))
  {
    if |s| > 0 {
      var p, b := s[..|s| - 1], s[|s| - 1];
      assert s == p + [b];
      RunFixedTracksMatch(p);
      MatchedOfLast(p, b);
      NextFixedOfFlag(Matched(p), b);
    }
  }

  /** The fixed detector reports COMPLETED exactly when the bytes so far end with the marker. */
  lemma RunFixedDetects(s: seq<byte>)
    ensures RunFixed(FIND, s) == COMPLETED <==> EndsWithMarker(s)
  {
    RunFixedTracksMatch(s);
    PrefixAsSlice(s, 4);
    assert MARKER[..4] == MARKER;
  }
}
