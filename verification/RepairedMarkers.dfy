/**
 The hex repair at the head of a cleaning pass (scripts/cbz_core.py) hides no marker that stands in the text: a run has at
 least six hex digits, and a marker's spelling is never without another letter for so long.
 */
module RepairedMarkers {
  import opened Outcomes
  import opened Cleaning
  import opened HexRepair
  import opened StandingMarkers

  const SHORTEST_RUN := 6

  /** No run can start `s`. */
  predicate NoRun(s: string) {
    |s| < SHORTEST_RUN || exists k | 0 <= k < SHORTEST_RUN :: !IsHex(s[k])
  }

  predicate AllHex(s: string) {
    forall i | 0 <= i < |s| :: IsHex(s[i])
  }

  lemma {:induction false} TailsAreHex(s: string, count: nat)
    requires TailsFollow(s, count)
    ensures 2 * count <= |s| && AllHex(s[..2 * count])
  {
    if count > 0 {
      TailsAreHex(s[2..], count - 1);
      assert s[..2 * count] == [s[0], s[1]] + s[2..][..2 * (count - 1)];
    }
  }

  lemma ChunkIsHex(s: string)
    ensures var n := ChunkLength(s);
      AllHex(s[..2 * n]) && (n > 0 ==> 2 * n >= SHORTEST_RUN)
  {
    var n := ChunkLength(s);
    if n > 0 {
      TailsAreHex(s[2..], n - 1);
      assert s[..2 * n] == [s[0], s[1]] + s[2..][..2 * (n - 1)];
    }
  }

  lemma {:induction false} RunIsHex(s: string)
    ensures var n := 2 * |RunBytes(s)|;
      AllHex(s[..n]) && (n > 0 ==> n >= SHORTEST_RUN)
    decreases |s|
  {
    hide ChunkLength, BytesOf, IsHex;
    ChunkIsHex(s);
    var n := 2 * ChunkLength(s);
    if n > 0 {
      var rest := s[n..];
      RunIsHex(rest);
      var m := 2 * |RunBytes(rest)|;
      assert s[..n + m] == s[..n] + rest[..m];
    }
  }

  lemma RunStartsHex(s: string)
    ensures NoRun(s) ==> RunBytes(s) == []
  {
    hide RunBytes, IsHex;
    RunIsHex(s);
    var n := 2 * |RunBytes(s)|;
    assert forall k | 0 <= k < n :: s[..n][k] == s[k];
  }

  lemma NoRunIsKept(s: string)
    requires s != "" && NoRun(s)
    ensures Repaired(s) == [s[0]] + Repaired(s[1..])
  {
    hide RunBytes, NoRun;
    RunStartsHex(s);
  }

  /** Where no run can start, the text is kept. */
  lemma {:induction false} PrefixIsKept(s: string, n: nat)
    requires n <= |s| && forall i | 0 <= i < n :: NoRun(s[i..])
    ensures Repaired(s) == s[..n] + Repaired(s[n..])
    decreases n
  {
    hide NoRun, Repaired;
    assert s[0..] == s;
    if n > 0 {
      var t := s[1..];
      NoRunIsKept(s);
      forall i | 0 <= i < n - 1 ensures NoRun(t[i..]) {
        assert t[i..] == s[i + 1..];
      }
      PrefixIsKept(t, n - 1);
      assert t[n - 1..] == s[n..] && s[..n] == [s[0]] + t[..n - 1];
      Regroup([s[0]], t[..n - 1], Repaired(s[n..]));
    }
  }

  lemma MarkerMiddle(a: Alphabet, w: string)
    requires Latin(a) && IsMarker(a, w)
    ensures forall k | 4 <= k < 8 :: !IsHex(w[k])
  {
    var f, u, d := Folded(a, w), Folded(a, UNCENSORED), Folded(a, DECENSORED);
    assert UNCENSORED[4] == DECENSORED[4] == 'n' && UNCENSORED[5] == DECENSORED[5] == 's';
    assert UNCENSORED[6] == DECENSORED[6] == 'o' && UNCENSORED[7] == DECENSORED[7] == 'r';
    assert u[4] == d[4] && u[5] == d[5] && u[6] == d[6] && u[7] == d[7];
    assert Matches(a, w[4], 'n') && Matches(a, w[5], 's') && Matches(a, w[6], 'o') && Matches(a, w[7], 'r');
  }

  lemma NoRunInMarker(a: Alphabet, s: string, i: nat)
    requires Latin(a) && MarkerStarts(a, s) && i < MARKER_LENGTH
    ensures NoRun(s[i..])
  {
    var w := s[..MARKER_LENGTH];
    MarkerMiddle(a, w);
    var k := if i <= 4 then 4 else if i < 8 then i else MARKER_LENGTH;
    assert k < MARKER_LENGTH ==> s[k] == w[k];
    assert k < |s| ==> s[i..][k - i] == s[k] && !IsHex(s[k]);
  }

  /** A marker at the start of a text stays there. */
  lemma MarkerIsKept(a: Alphabet, s: string, kind: string)
    requires Latin(a) && KindStarts(a, s, kind)
    ensures KindStarts(a, Repaired(s), kind)
  {
    hide IsMarker, Latin;
    forall i | 0 <= i < MARKER_LENGTH ensures NoRun(s[i..]) {
      NoRunInMarker(a, s, i);
    }
    PrefixIsKept(s, MARKER_LENGTH);
    var w, q := s[..MARKER_LENGTH], s[MARKER_LENGTH..];
    assert Repaired(s)[..MARKER_LENGTH] == w;
    if q != "" {
      NonWordIsNoHex(a, q[0]);
      assert NoRun(q);
      NoRunIsKept(q);
      assert Repaired(s)[MARKER_LENGTH] == q[0];
    }
  }

  lemma NonWordIsNoHex(a: Alphabet, c: char)
    requires Latin(a) && !a.isWord(c)
    ensures !IsHex(c)
  {
  }

  lemma MarkerIsNotHex(a: Alphabet, s: string, n: nat)
    requires Latin(a) && MarkerStarts(a, s) && SHORTEST_RUN <= n <= |s|
    ensures !AllHex(s[..n])
  {
    hide IsHex;
    MarkerMiddle(a, s[..MARKER_LENGTH]);
    assert s[..n][4] == s[..MARKER_LENGTH][4];
  }

  /** No marker stands in a run of hex digits or right behind it. */
  lemma {:induction false} SeenBehindRun(a: Alphabet, s: string, inWord: bool, n: nat, kind: string)
    requires Latin(a) && 0 < n <= |s| && AllHex(s[..n]) && (n >= SHORTEST_RUN || inWord) && Seen(a, s, inWord, kind)
    ensures Seen(a, s[n..], true, kind)
    decreases n
  {
    hide IsMarker, Latin;
    HexIsWord(a, s, n);
    if !inWord && KindStarts(a, s, kind) {
      MarkerIsNotHex(a, s, n);
    } else if n > 1 {
      assert s[..n][1..] == s[1..][..n - 1] && s[1..][n - 1..] == s[n..];
      SeenBehindRun(a, s[1..], true, n - 1, kind);
    }
  }

  lemma HexIsWord(a: Alphabet, s: string, n: nat)
    requires Latin(a) && 0 < n <= |s| && AllHex(s[..n])
    ensures a.isWord(s[0])
  {
    assert s[..n][0] == s[0];
  }

  lemma SeenAnyway(a: Alphabet, s: string, inWord: bool, kind: string)
    requires Seen(a, s, true, kind)
    ensures Seen(a, s, inWord, kind)
  {
  }

  /** Every marker that stands in a text stands in the repaired text. */
  lemma {:induction false} RepairKeepsMarkers(a: Alphabet, s: string, inWord: bool, kind: string)
    requires Latin(a) && Seen(a, s, inWord, kind)
    ensures Seen(a, Repaired(s), inWord, kind)
    decreases |s|
  {
    hide KindStarts, Latin;
    if !inWord && KindStarts(a, s, kind) {
      MarkerIsKept(a, s, kind);
      KindIsSeen(a, Repaired(s), kind);
    } else if DecodedRun(s).Some? {
      var d, n := DecodedRun(s).value, 2 * |RunBytes(s)|;
      RunIsHex(s);
      SeenBehindRun(a, s, inWord, n, kind);
      RepairKeepsMarkers(a, s[n..], true, kind);
      SeenBehind(a, d, Repaired(s[n..]), inWord, kind);
    } else {
      RepairKeepsMarkers(a, s[1..], a.isWord(s[0]), kind);
      assert Repaired(s)[1..] == Repaired(s[1..]);
    }
  }

  lemma KindIsSeen(a: Alphabet, s: string, kind: string)
    requires KindStarts(a, s, kind)
    ensures Seen(a, s, false, kind)
  {
  }

  lemma SeenBehind(a: Alphabet, d: string, t: string, inWord: bool, kind: string)
    requires Seen(a, t, true, kind)
    ensures Seen(a, d + t, inWord, kind)
  {
    if d == "" {
      assert d + t == t;
      SeenAnyway(a, t, inWord, kind);
    } else {
      SeenAnyway(a, t, a.isWord(d[|d| - 1]), kind);
      assert (d + t)[|d|..] == t && (d + t)[|d| - 1] == d[|d| - 1];
      SeenLater(a, d + t, inWord, |d|, kind);
    }
  }

  /** The repair loses no marker, and gives the text itself or a shorter one. */
  lemma RepairPays(a: Alphabet, s: string)
    requires Latin(a)
    ensures Pays(a, s, Repaired(s)) && Shortens(Repaired(s), s)
  {
    hide Latin;
    RepairShortens(s);
    forall kind | Seen(a, s, false, kind) ensures Seen(a, Repaired(s), false, kind) {
      RepairKeepsMarkers(a, s, false, kind);
    }
  }

  lemma {:induction false} RepairShortens(s: string)
    ensures Shortens(Repaired(s), s)
    decreases |s|
  {
    if s != "" {
      var n := 2 * |RunBytes(s)|;
      if DecodedRun(s).Some? {
        RepairShortens(s[n..]);
      } else {
        RepairShortens(s[1..]);
        assert s == [s[0]] + s[1..];
      }
    }
  }
}
