/**
 Repair of characters written as the hex of their UTF-8 bytes: `repair_mojibake` and `_decode_mojibake_run` in
 scripts/cbz_core.py. UTF-8 is that of sections 3 and 4 of RFC 3629.
 */
module HexRepair {
  import opened Outcomes

  // ------------------------------------------------------------ UTF-8

  type Byte = b: int | 0 <= b < 256

  predicate Tail(b: Byte) {
    0x80 <= b <= 0xBF
  }

  /** The length of the sequence a lead byte starts, or 0. */
  function SequenceLength(lead: Byte): nat {
    if lead <= 0x7F then 1
    else if 0xC2 <= lead <= 0xDF then 2
    else if 0xE0 <= lead <= 0xEF then 3
    else if 0xF0 <= lead <= 0xF4 then 4
    else 0
  }

  /** Section 4 of RFC 3629: what may follow the lead byte at once. */
  predicate SecondAllowed(lead: Byte, second: Byte) {
    && Tail(second)
    && (lead == 0xE0 ==> second >= 0xA0) && (lead == 0xED ==> second <= 0x9F)
    && (lead == 0xF0 ==> second >= 0x90) && (lead == 0xF4 ==> second <= 0x8F)
  }

  /** The payload bits of a byte above `base`. */
  function Bits(b: Byte, base: int): int {
    b as int - base
  }

  /** The character of the well-formed sequence `bs` starts with. */
  function FirstChar(bs: seq<Byte>): Option<char> {
    if bs == [] then None else
    var n := SequenceLength(bs[0]);
    if n == 1 then Some(bs[0] as char)
    else if n == 0 || n > |bs| || !SecondAllowed(bs[0], bs[1]) then None
    else if n == 2 then Some((Bits(bs[0], 0xC0) * 64 + Bits(bs[1], 0x80)) as char)
    else if !Tail(bs[2]) then None
    else if n == 3 then Some((Bits(bs[0], 0xE0) * 4096 + Bits(bs[1], 0x80) * 64 + Bits(bs[2], 0x80)) as char)
    else if !Tail(bs[3]) then None
    else Some((Bits(bs[0], 0xF0) * 262144 + Bits(bs[1], 0x80) * 4096 + Bits(bs[2], 0x80) * 64 + Bits(bs[3], 0x80))
              as char)
  }

  /** Strict decoding: one malformed sequence spoils all. */
  function Decode(bs: seq<Byte>): (r: Option<string>)
    ensures r.Some? ==> |r.value| <= |bs|
  {
    if bs == [] then Some("") else
    match FirstChar(bs)
    case None => None
    case Some(c) =>
      var rest := Decode(bs[SequenceLength(bs[0])..]);
      if rest.None? then None else Some([c] + rest.value)
  }

  /** Characters of one and two bytes decode as section 3 of RFC 3629 says, and bytes that start no sequence do not. */
  lemma ShortFormsDecode(c: char, b: Byte, more: seq<Byte>)
    requires c as int < 0x800
    ensures var n := c as int;
      FirstChar((if n < 0x80 then [n] else [0xC0 + n / 64, 0x80 + n % 64]) + more) == Some(c)
    ensures 0x80 <= b <= 0xC1 || b >= 0xF5 ==> FirstChar([b] + more) == None
  {
    var n := c as int;
    var bs: seq<Byte> := if n < 0x80 then [n] else [0xC0 + n / 64, 0x80 + n % 64];
    assert (bs + more)[0] == bs[0] && (n >= 0x80 ==> (bs + more)[1] == bs[1]);
    assert n == n / 64 * 64 + n % 64;
  }

  /** Section 3 of RFC 3629, for the characters of three bytes. */
  function Encode3(c: char): seq<Byte>
    requires 0x800 <= c as int <= 0xFFFF
  {
    var n := c as int;
    [0xE0 + n / 4096, 0x80 + n / 64 % 64, 0x80 + n % 64]
  }

  lemma EncodedIsWellFormed(c: char, more: seq<Byte>)
    requires 0x800 <= c as int <= 0xFFFF
    ensures FirstChar(Encode3(c) + more) == Some(c)
    ensures |Encode3(c)| == 3 && 0xE0 <= Encode3(c)[0] <= 0xEF && Tail(Encode3(c)[1]) && Tail(Encode3(c)[2])
  {
    var n := c as int;
    var bs := Encode3(c) + more;
    assert bs[0] == Encode3(c)[0] && bs[1] == Encode3(c)[1] && bs[2] == Encode3(c)[2];
    assert n == (n / 4096) * 4096 + (n / 64 % 64) * 64 + n % 64 by {
      assert n / 64 / 64 == n / 4096;
    }
    assert n / 4096 == 0 ==> n / 64 % 64 >= 0x20;
    assert n / 4096 == 13 ==> n / 64 % 64 <= 0x1F;
  }

  // ------------------------------------------------------------ hex

  function HexValue(c: char): Option<nat> {
    if '0' <= c <= '9' then Some(c as nat - '0' as nat)
    else if 'a' <= c <= 'f' then Some(c as nat - 'a' as nat + 10)
    else if 'A' <= c <= 'F' then Some(c as nat - 'A' as nat + 10)
    else None
  }

  predicate IsHex(c: char) {
    HexValue(c).Some?
  }

  /** The byte two hex digits at the start of `s` write. */
  function HexByte(s: string): (b: Option<Byte>) {
    if |s| < 2 || !IsHex(s[0]) || !IsHex(s[1]) then None
    else Some(HexValue(s[0]).value * 16 + HexValue(s[1]).value)
  }

  function HexDigit(n: nat): char
    requires n < 16
  {
    if n < 10 then '0' + n as char else 'a' + (n - 10) as char
  }

  /** Lowercase hex. */
  function Hex(bs: seq<Byte>): string {
    if bs == [] then "" else [HexDigit(bs[0] / 16), HexDigit(bs[0] % 16)] + Hex(bs[1..])
  }

  // ------------------------------------------------------------ runs

  /** `s` starts with `count` continuation bytes in hex. */
  predicate TailsFollow(s: string, count: nat) {
    count == 0 || (HexByte(s).Some? && Tail(HexByte(s).value) && TailsFollow(s[2..], count - 1))
  }

  lemma {:induction false} TailsHaveRoom(s: string, count: nat)
    requires TailsFollow(s, count)
    ensures 2 * count <= |s|
  {
    if count > 0 {
      TailsHaveRoom(s[2..], count - 1);
    }
  }

  /** The bytes of the sequence a lead byte E0 to F4 announces; 0 for other bytes. */
  function Announced(lead: Option<Byte>): nat {
    if lead.None? || lead.value < 0xE0 || lead.value > 0xF4 then 0 else if lead.value < 0xF0 then 3 else 4
  }

  /** The bytes of the sequence `s` starts with in hex, or 0. */
  function ChunkLength(s: string): (n: nat)
    ensures 2 * n <= |s|
  {
    var n := Announced(HexByte(s));
    if n > 0 && TailsFollow(s[2..], n - 1) then TailsHaveRoom(s[2..], n - 1); n else 0
  }

  /** The bytes that the first `2 * n` characters write. */
  function BytesOf(s: string, n: nat): (bs: seq<Byte>)
    requires 2 * n <= |s|
    ensures |bs| == n
  {
    if n == 0 then [] else [if HexByte(s).Some? then HexByte(s).value else 0] + BytesOf(s[2..], n - 1)
  }

  /** The bytes of the sequences that follow one another at the start of `s`. */
  function RunBytes(s: string): (bs: seq<Byte>)
    ensures 2 * |bs| <= |s|
  {
    var n := ChunkLength(s);
    if n == 0 then [] else BytesOf(s, n) + RunBytes(s[2 * n..])
  }

  /** `_mojibake_codepoint_ok` of one character. */
  predicate Accepted(c: char) {
    var n := c as int;
    || 0x00A0 <= n <= 0x33FF || 0x3400 <= n <= 0x9FFF || 0xAC00 <= n <= 0xD7A3
    || 0xF900 <= n <= 0xFAFF || 0xFF00 <= n <= 0xFFEF
  }

  predicate AllAccepted(s: string) {
    forall i | 0 <= i < |s| :: Accepted(s[i])
  }

  /** The text of the run at the start of `s`, if it decodes and reads as text. */
  function DecodedRun(s: string): (r: Option<string>)
    ensures r.Some? ==> |r.value| <= |RunBytes(s)| && RunBytes(s) != []
  {
    var bs := RunBytes(s);
    if bs == [] then None else
    var d := Decode(bs);
    if d.Some? && AllAccepted(d.value) then d else None
  }

  /** What repairing `s` gives. */
  function Repaired(s: string): (r: string)
    ensures |r| <= |s|
  {
    if s == "" then "" else
    match DecodedRun(s)
    case Some(d) => d + Repaired(s[2 * |RunBytes(s)|..])
    case None => [s[0]] + Repaired(s[1..])
  }

  // ------------------------------------------------------------ the loops

  lemma {:induction false} BytesOfAppend(s: string, n: nat)
    requires 2 * (n + 1) <= |s| && HexByte(s[2 * n..]).Some?
    ensures BytesOf(s, n + 1) == BytesOf(s, n) + [HexByte(s[2 * n..]).value]
  {
    if n == 0 {
      assert s[0..] == s;
      assert BytesOf(s[2..], 0) == [];
    } else {
      assert s[2..][2 * (n - 1)..] == s[2 * n..];
      BytesOfAppend(s[2..], n - 1);
    }
  }

  /** One sequence of the run: its lead byte and the continuation bytes it announces. */
  method ReadChunk(text: string, j: nat) returns (chunk: seq<Byte>)
    requires j <= |text|
    ensures chunk == BytesOf(text[j..], ChunkLength(text[j..]))
  {
    ghost var s := text[j..];
    var lead := HexByte(text[j..]);
    var n := Announced(lead);
    if n == 0 {
      return [];
    }
    chunk := [lead.value];
    var pos := j + 2;
    assert s[2..] == text[pos..];
    assert BytesOf(s, 1) == [lead.value] + BytesOf(s[2..], 0);
    for k := 1 to n
      invariant pos == j + 2 * k <= |text| && s[2 * k..] == text[pos..]
      invariant chunk == BytesOf(s, k)
      invariant TailsFollow(s[2..], n - 1) <==> TailsFollow(text[pos..], n - k)
    {
      var cont := HexByte(text[pos..]);
      if cont.None? || !Tail(cont.value) {
        return [];
      }
      BytesOfAppend(s, k);
      chunk := chunk + [cont.value];
      assert text[pos..][2..] == text[pos + 2..];
      pos := pos + 2;
    }
  }

  /** The run at `j` is its first sequence and the run after that. */
  lemma NextChunk(text: string, j: nat, chunk: seq<Byte>)
    requires j <= |text| && chunk == BytesOf(text[j..], ChunkLength(text[j..]))
    ensures chunk == [] ==> RunBytes(text[j..]) == []
    ensures chunk != [] ==> j + 2 * |chunk| <= |text| && RunBytes(text[j..]) == chunk + RunBytes(text[j + 2 * |chunk|..])
  {
    assert text[j..][2 * |chunk|..] == text[j + 2 * |chunk|..];
  }

  lemma NothingRuns(s: string)
    requires s == ""
    ensures RunBytes(s) == []
  {
  }

  /** The sequences of a run, one after another. */
  method ReadRun(text: string, i: nat) returns (bytes: seq<Byte>)
    requires i <= |text|
    ensures bytes == RunBytes(text[i..])
  {
    hide RunBytes, ChunkLength, BytesOf;
    bytes := [];
    var j := i;
    while j < |text|
      invariant i <= j <= |text|
      invariant bytes + RunBytes(text[j..]) == RunBytes(text[i..])
      decreases |text| - j
    {
      var chunk := ReadChunk(text, j);
      NextChunk(text, j, chunk);
      if chunk == [] {
        return;
      }
      bytes := bytes + chunk;
      j := j + 2 * |chunk|;
    }
    NothingRuns(text[j..]);
  }

  /** `_decode_mojibake_run` */
  method DecodeMojibakeRun(text: string, i: nat) returns (consumed: nat, decoded: Option<string>)
    requires i <= |text|
    ensures decoded == DecodedRun(text[i..])
    ensures consumed == if decoded.Some? then 2 * |RunBytes(text[i..])| else 0
  {
    var bytes := ReadRun(text, i);
    if bytes == [] {
      return 0, None;
    }
    var d := Decode(bytes);
    if d.None? || !AllAccepted(d.value) {
      return 0, None;
    }
    return 2 * |bytes|, d;
  }

  /** What repairing does at a position. */
  lemma RepairStep(text: string, i: nat)
    requires i < |text|
    ensures var s := text[i..];
      && i + 2 * |RunBytes(s)| <= |text|
      && (DecodedRun(s).Some? ==>
            RunBytes(s) != [] && Repaired(s) == DecodedRun(s).value + Repaired(text[i + 2 * |RunBytes(s)|..]))
      && (DecodedRun(s).None? ==> Repaired(s) == [text[i]] + Repaired(text[i + 1..]))
  {
    hide RunBytes, DecodedRun, Decode, ChunkLength, BytesOf;
    var s := text[i..];
    assert s[2 * |RunBytes(s)|..] == text[i + 2 * |RunBytes(s)|..] && s[1..] == text[i + 1..];
  }

  predicate MayLead(c: char) {
    c in {'e', 'E', 'f', 'F'}
  }

  /** Without a possible lead digit there is nothing to repair. */
  lemma {:induction false} NothingToRepair(s: string)
    requires forall i | 0 <= i < |s| :: !MayLead(s[i])
    ensures Repaired(s) == s
  {
    if s != "" {
      assert Announced(HexByte(s)) == 0;
      NothingToRepair(s[1..]);
    }
  }

  /** `repair_mojibake` */
  method RepairMojibake(text: string) returns (r: string)
    ensures r == Repaired(text)
  {
    if forall i | 0 <= i < |text| :: !MayLead(text[i]) {
      NothingToRepair(text);
      return text;
    }
    r := RepairAll(text);
  }

  lemma AdvanceRepair(left: string, r: string, whole: string)
    requires left != "" && r + Repaired(left) == whole
    ensures var d, n := DecodedRun(left), 2 * |RunBytes(left)|;
      && (d.Some? ==> n > 0 && r + d.value + Repaired(left[n..]) == whole)
      && (d.None? ==> r + [left[0]] + Repaired(left[1..]) == whole)
  {
    var d, n := DecodedRun(left), 2 * |RunBytes(left)|;
    if d.Some? {
      Regroup(r, d.value, Repaired(left[n..]));
    } else {
      Regroup(r, [left[0]], Repaired(left[1..]));
    }
  }

  method RepairAll(text: string) returns (r: string)
    ensures r == Repaired(text)
  {
    r := "";
    var i := 0;
    ghost var left, whole := text, Repaired(text);
    while i < |text|
      invariant i <= |text| && left == text[i..]
      invariant r + Repaired(left) == whole
      decreases |text| - i
    {
      AdvanceRepair(left, r, whole);
      var consumed, decoded := DecodeMojibakeRun(text, i);
      if decoded.Some? {
        r := r + decoded.value;
        i := i + consumed;
        left := left[consumed..];
      } else {
        r := r + [text[i]];
        i := i + 1;
        left := left[1..];
      }
    }
    assert left == "" && r + "" == r;
  }

  lemma Regroup(a: string, b: string, c: string)
    ensures a + (b + c) == (a + b) + c
  {
  }

  // ------------------------------------------------------------ repairing undoes the corruption

  /** A stretch of text as it was: kept, or a run of characters that the corruption wrote in hex. */
  datatype Piece = Kept(text: string) | Corrupted(text: string)

  function EncodeAll(s: string): seq<Byte>
    requires forall i | 0 <= i < |s| :: 0x800 <= s[i] as int <= 0xFFFF
  {
    if s == "" then [] else Encode3(s[0]) + EncodeAll(s[1..])
  }

  predicate Written3(s: string) {
    s != "" && AllAccepted(s) && forall i | 0 <= i < |s| :: 0x800 <= s[i] as int <= 0xFFFF
  }

  predicate EndsHex(s: string) {
    s != "" && IsHex(s[|s| - 1])
  }

  /** Corrupted runs of accepted three-byte characters, apart from one another; a kept stretch needs no repair, does not
      go on with the run before it, and does not end in a hex digit before another run. */
  predicate Separable(ps: seq<Piece>) {
    ps == [] || (
      && Separable(ps[1..])
      && match ps[0]
         case Corrupted(s) =>
           Written3(s) && (|ps| > 1 ==> ps[1].Kept? && ps[1].text != "" && ChunkLength(ps[1].text) == 0)
         case Kept(t) => Repaired(t) == t && (|ps| > 1 ==> ps[1].Corrupted? && !EndsHex(t)))
  }

  function Original(ps: seq<Piece>): string {
    if ps == [] then "" else ps[0].text + Original(ps[1..])
  }

  function Corrupt(ps: seq<Piece>): string
    requires Separable(ps)
  {
    if ps == [] then "" else
    (if ps[0].Kept? then ps[0].text else Hex(EncodeAll(ps[0].text))) + Corrupt(ps[1..])
  }

  lemma HexByteAppend(p: string, q: string)
    requires p != "" && (q == "" || !EndsHex(p))
    ensures HexByte(p + q) == HexByte(p)
  {
  }

  lemma DropAppend(p: string, q: string, n: nat)
    requires n <= |p|
    ensures (p + q)[n..] == p[n..] + q
  {
  }

  /** Reading hex stops before a character that is none. */
  lemma {:induction false} TailsAppend(p: string, q: string, count: nat)
    requires p != "" && !EndsHex(p)
    ensures TailsFollow(p + q, count) == TailsFollow(p, count)
  {
    if count > 0 {
      HexByteAppend(p, q);
      if HexByte(p).Some? {
        DropAppend(p, q, 2);
        assert |p| > 2 by {
          assert IsHex(p[1]);
        }
        TailsAppend(p[2..], q, count - 1);
      }
    }
  }

  lemma {:induction false} BytesAppend(p: string, q: string, n: nat)
    requires 2 * n <= |p|
    ensures BytesOf(p + q, n) == BytesOf(p, n)
  {
    if n > 0 {
      DropAppend(p, q, 2);
      BytesAppend(p[2..], q, n - 1);
      assert (p + q)[0] == p[0] && (p + q)[1] == p[1];
    }
  }

  lemma {:induction false} TailsAreHex(s: string, count: nat, i: nat)
    requires TailsFollow(s, count) && i < 2 * count
    ensures i < |s| && IsHex(s[i])
  {
    TailsHaveRoom(s, count);
    if i >= 2 {
      TailsAreHex(s[2..], count - 1, i - 2);
    }
  }

  lemma ChunkAppend(p: string, q: string)
    requires p != "" && !EndsHex(p)
    ensures ChunkLength(p + q) == ChunkLength(p)
    ensures ChunkLength(p) > 0 ==> 2 * ChunkLength(p) < |p|
  {
    HexByteAppend(p, q);
    var n := Announced(HexByte(p));
    if n > 0 {
      DropAppend(p, q, 2);
      assert |p| > 2 by {
        assert IsHex(p[1]);
      }
      TailsAppend(p[2..], q, n - 1);
      if TailsFollow(p[2..], n - 1) {
        TailsAreHex(p[2..], n - 1, 2 * n - 3);
      }
    }
  }

  lemma {:induction false} RunAppend(p: string, q: string)
    requires p != "" && !EndsHex(p)
    ensures RunBytes(p + q) == RunBytes(p)
    ensures 2 * |RunBytes(p)| < |p|
    decreases |p|
  {
    var n := ChunkLength(p);
    ChunkAppend(p, q);
    if n > 0 {
      BytesAppend(p, q, n);
      DropAppend(p, q, 2 * n);
      RunAppend(p[2 * n..], q);
    }
  }

  lemma DecodedRunAppend(p: string, q: string)
    requires p != "" && !EndsHex(p)
    ensures DecodedRun(p + q) == DecodedRun(p)
    ensures RunBytes(p + q) == RunBytes(p) && 2 * |RunBytes(p)| < |p|
  {
    RunAppend(p, q);
  }

  /** Repair goes stretch by stretch where a stretch does not end in a hex digit. */
  lemma {:induction false} RepairAppend(p: string, q: string)
    requires !EndsHex(p)
    ensures Repaired(p + q) == Repaired(p) + Repaired(q)
    decreases |p|
  {
    if p == "" {
      assert p + q == q;
    } else {
      DecodedRunAppend(p, q);
      RepairStep(p, 0);
      RepairStep(p + q, 0);
      assert p[0..] == p && (p + q)[0..] == p + q && (p + q)[0] == p[0];
      var n := if DecodedRun(p).Some? then 2 * |RunBytes(p)| else 1;
      var head := if DecodedRun(p).Some? then DecodedRun(p).value else [p[0]];
      DropAppend(p, q, n);
      RepairAppend(p[n..], q);
      Regroup(head, Repaired(p[n..]), Repaired(q));
    }
  }

  lemma HexOfByte(b: Byte, rest: string)
    ensures HexByte([HexDigit(b / 16), HexDigit(b % 16)] + rest) == Some(b)
  {
  }

  lemma HexOfThree(bs: seq<Byte>, rest: string)
    requires |bs| == 3 && 0xE0 <= bs[0] <= 0xEF && Tail(bs[1]) && Tail(bs[2])
    ensures ChunkLength(Hex(bs) + rest) == 3
    ensures BytesOf(Hex(bs) + rest, 3) == bs
    ensures |Hex(bs)| == 6 && (Hex(bs) + rest)[6..] == rest
  {
    var h0, h1, h2 := [HexDigit(bs[0] / 16), HexDigit(bs[0] % 16)], [HexDigit(bs[1] / 16), HexDigit(bs[1] % 16)],
      [HexDigit(bs[2] / 16), HexDigit(bs[2] % 16)];
    assert Hex(bs[1..]) == h1 + Hex(bs[2..]) by {
      assert bs[1..][1..] == bs[2..];
    }
    assert Hex(bs[2..]) == h2 + Hex(bs[3..]) by {
      assert bs[2..][1..] == bs[3..];
    }
    assert Hex(bs) == h0 + (h1 + (h2 + ""));
    var s := Hex(bs) + rest;
    assert s == h0 + (h1 + (h2 + rest));
    HexOfByte(bs[0], h1 + (h2 + rest));
    assert s[2..] == h1 + (h2 + rest);
    HexOfByte(bs[1], h2 + rest);
    assert s[2..][2..] == h2 + rest;
    HexOfByte(bs[2], rest);
    assert s[2..][2..][2..] == rest;
    assert TailsFollow(s[2..][2..][2..], 0);
    assert TailsFollow(s[2..][2..], 1);
    assert TailsFollow(s[2..], 2);
    assert BytesOf(s[2..][2..][2..], 0) == [];
    assert BytesOf(s[2..][2..], 1) == [bs[2]];
    assert BytesOf(s[2..], 2) == [bs[1], bs[2]];
  }

  lemma {:induction false} HexAppend(a: seq<Byte>, b: seq<Byte>)
    ensures Hex(a + b) == Hex(a) + Hex(b)
  {
    if a == [] {
      assert a + b == b;
    } else {
      assert (a + b)[1..] == a[1..] + b;
      HexAppend(a[1..], b);
    }
  }

  lemma FirstChunk(t: string)
    ensures var n := ChunkLength(t); n > 0 ==> RunBytes(t) == BytesOf(t, n) + RunBytes(t[2 * n..])
  {
  }

  lemma OneChunkMore(c: seq<Byte>, more: seq<Byte>, rest: string)
    requires |c| == 3 && 0xE0 <= c[0] <= 0xEF && Tail(c[1]) && Tail(c[2])
    requires RunBytes(Hex(more) + rest) == more + RunBytes(rest) && (Hex(more) + rest)[2 * |more|..] == rest
    ensures RunBytes(Hex(c + more) + rest) == (c + more) + RunBytes(rest)
    ensures (Hex(c + more) + rest)[2 * |c + more|..] == rest
  {
    hide Hex, BytesOf, ChunkLength, RunBytes;
    var after := Hex(more) + rest;
    HexAppend(c, more);
    assert Hex(c + more) + rest == Hex(c) + after;
    HexOfThree(c, after);
    FirstChunk(Hex(c) + after);
    assert c + (more + RunBytes(rest)) == (c + more) + RunBytes(rest);
    assert (Hex(c) + after)[6..][2 * |more|..] == (Hex(c) + after)[6 + 2 * |more|..];
  }

  /** A corrupted run is read back whole, and the run goes on with what follows. */
  lemma {:induction false} RunGoesOn(s: string, rest: string)
    requires forall i | 0 <= i < |s| :: 0x800 <= s[i] as int <= 0xFFFF
    ensures RunBytes(Hex(EncodeAll(s)) + rest) == EncodeAll(s) + RunBytes(rest)
    ensures (Hex(EncodeAll(s)) + rest)[2 * |EncodeAll(s)|..] == rest
  {
    hide RunBytes, Encode3;
    if s == "" {
      assert Hex(EncodeAll(s)) + rest == rest && [] + RunBytes(rest) == RunBytes(rest);
    } else {
      var c, more := Encode3(s[0]), EncodeAll(s[1..]);
      EncodedIsWellFormed(s[0], more);
      RunGoesOn(s[1..], rest);
      OneChunkMore(c, more, rest);
    }
  }

  lemma RunOfCorrupted(s: string, rest: string)
    requires forall i | 0 <= i < |s| :: 0x800 <= s[i] as int <= 0xFFFF
    requires ChunkLength(rest) == 0
    ensures RunBytes(Hex(EncodeAll(s)) + rest) == EncodeAll(s)
    ensures (Hex(EncodeAll(s)) + rest)[2 * |EncodeAll(s)|..] == rest
  {
    RunGoesOn(s, rest);
    assert EncodeAll(s) + [] == EncodeAll(s);
  }

  lemma {:induction false} DecodeOfEncoded(s: string)
    requires forall i | 0 <= i < |s| :: 0x800 <= s[i] as int <= 0xFFFF
    ensures Decode(EncodeAll(s)) == Some(s)
  {
    if s != "" {
      var c, more := Encode3(s[0]), EncodeAll(s[1..]);
      EncodedIsWellFormed(s[0], more);
      assert (c + more)[3..] == more;
      DecodeOfEncoded(s[1..]);
      assert s == [s[0]] + s[1..];
    }
  }

  /** A corrupted run is repaired, whatever follows that does not go on with it. */
  lemma RepairOfCorrupted(s: string, rest: string)
    requires Written3(s) && ChunkLength(rest) == 0
    ensures Repaired(Hex(EncodeAll(s)) + rest) == s + Repaired(rest)
  {
    RunOfCorrupted(s, rest);
    DecodeOfEncoded(s);
  }

  /** What follows a corrupted run does not go on with it. */
  lemma NextStartsNoChunk(ps: seq<Piece>)
    requires Separable(ps) && (ps == [] || (ps[0].Kept? && ps[0].text != "" && ChunkLength(ps[0].text) == 0))
    ensures ChunkLength(Corrupt(ps)) == 0
  {
    if |ps| == 1 {
      assert Corrupt(ps[1..]) == "";
      assert Corrupt(ps) == ps[0].text;
    } else if |ps| > 1 {
      ChunkAppend(ps[0].text, Corrupt(ps[1..]));
    }
  }

  /** Repairing undoes the corruption. */
  lemma {:induction false} RepairUndoesCorruption(ps: seq<Piece>)
    requires Separable(ps)
    ensures Repaired(Corrupt(ps)) == Original(ps)
  {
    if ps != [] {
      RepairUndoesCorruption(ps[1..]);
      var rest := Corrupt(ps[1..]);
      match ps[0]
      case Corrupted(s) =>
        NextStartsNoChunk(ps[1..]);
        RepairOfCorrupted(s, rest);
      case Kept(t) =>
        if |ps| == 1 {
          assert Corrupt(ps) == t;
        } else {
          RepairAppend(t, rest);
        }
    }
  }

  /** What the repair is for: kana, Chinese characters, Hangul, full-width forms and the punctuation before them come back
      from the hex of their bytes. */
  lemma TextComesBack(c: char)
    requires 0x800 <= c as int <= 0x9FFF || 0xAC00 <= c as int <= 0xD7A3 || 0xF900 <= c as int <= 0xFAFF
          || 0xFF00 <= c as int <= 0xFFEF
    ensures Repaired(Hex(Encode3(c))) == [c]
  {
    assert [c][1..] == [] && EncodeAll([c]) == Encode3(c) + [] == Encode3(c);
    RepairOfCorrupted([c], "");
    assert Hex(Encode3(c)) + "" == Hex(Encode3(c)) && [c] + "" == [c];
  }

  /** Hex of every other character of three bytes, such as Yi and those for private use, stays. */
  lemma OtherHexStays(c: char)
    requires 0xA000 <= c as int <= 0xABFF || 0xD7A4 <= c as int <= 0xF8FF || 0xFB00 <= c as int <= 0xFEFF
          || 0xFFF0 <= c as int <= 0xFFFF
    ensures Repaired(Hex(Encode3(c))) == Hex(Encode3(c))
  {
    hide Repaired;
    var s := Hex(Encode3(c));
    assert [c][1..] == [] && EncodeAll([c]) == Encode3(c) + [] == Encode3(c);
    RunOfCorrupted([c], "");
    assert s + "" == s;
    DecodeOfEncoded([c]);
    assert DecodedRun(s) == None by {
      assert !Accepted([c][0]);
    }
    EncodedIsWellFormed(c, []);
    HexOfThree(Encode3(c), "");
    RepairStep(s, 0);
    assert s[0..] == s && s == [s[0]] + s[1..];
    ShortStays(s[1..]);
  }

  /** Less than the hex of three bytes is no run. */
  lemma {:induction false} ShortStays(s: string)
    requires |s| < 6
    ensures Repaired(s) == s
  {
    if s != "" {
      ShortStays(s[1..]);
      assert RunBytes(s) == [];
    }
  }

  // ------------------------------------------------------------ characters of four bytes

  /** Section 3 of RFC 3629, for the characters of four bytes. */
  function Encode4(c: char): seq<Byte>
    requires c as int >= 0x10000
  {
    var n := c as int;
    [0xF0 + n / 262144, 0x80 + n / 4096 % 64, 0x80 + n / 64 % 64, 0x80 + n % 64]
  }

  lemma EncodedFourIsWellFormed(c: char, more: seq<Byte>)
    requires c as int >= 0x10000
    ensures FirstChar(Encode4(c) + more) == Some(c)
    ensures var e := Encode4(c); |e| == 4 && 0xF0 <= e[0] <= 0xF4 && Tail(e[1]) && Tail(e[2]) && Tail(e[3])
  {
    var n := c as int;
    var e := Encode4(c);
    var bs := e + more;
    assert bs[0] == e[0] && bs[1] == e[1] && bs[2] == e[2] && bs[3] == e[3];
    assert n == (n / 262144) * 262144 + (n / 4096 % 64) * 4096 + (n / 64 % 64) * 64 + n % 64 by {
      assert n / 64 / 64 == n / 4096 && n / 4096 / 64 == n / 262144;
    }
    assert n / 262144 == 0 ==> n / 4096 % 64 >= 0x10;
    assert n / 262144 == 4 ==> n / 4096 % 64 <= 0x0F;
  }

  lemma HexOfFour(bs: seq<Byte>, rest: string)
    requires |bs| == 4 && 0xF0 <= bs[0] <= 0xF4 && Tail(bs[1]) && Tail(bs[2]) && Tail(bs[3])
    ensures RunBytes(Hex(bs) + rest) == bs + RunBytes(rest)
  {
    var s := Hex(bs) + rest;
    assert bs == [bs[0]] + bs[1..] && bs[1..] == [bs[1]] + bs[2..] && bs[2..] == [bs[2]] + bs[3..];
    var s3 := Hex(bs[3..]) + rest;
    assert bs[3..][1..] == [];
    HexStarts(bs, rest);
    HexStarts(bs[1..], rest);
    HexStarts(bs[2..], rest);
    HexStarts(bs[3..], rest);
    assert bs[1..][1..] == bs[2..] && bs[2..][1..] == bs[3..];
    assert Hex([]) + rest == rest;
    assert TailsFollow(rest, 0) && TailsFollow(s3, 1);
    assert TailsFollow(s[2..][2..], 2);
    assert TailsFollow(s[2..], 3);
    assert ChunkLength(s) == 4;
    assert BytesOf(rest, 0) == [] && BytesOf(s3, 1) == [bs[3]];
    assert BytesOf(s[2..][2..], 2) == [bs[2], bs[3]];
    assert BytesOf(s[2..], 3) == [bs[1], bs[2], bs[3]];
    assert BytesOf(s, 4) == bs;
    assert s[2..][2..][2..][2..] == s[8..];
  }

  lemma HexStarts(bs: seq<Byte>, rest: string)
    requires bs != []
    ensures HexByte(Hex(bs) + rest) == Some(bs[0]) && (Hex(bs) + rest)[2..] == Hex(bs[1..]) + rest
  {
    var h, more := [HexDigit(bs[0] / 16), HexDigit(bs[0] % 16)], Hex(bs[1..]);
    assert Hex(bs) == h + more;
    hide Hex, HexByte;
    Regroup(h, more, rest);
    HexOfByte(bs[0], more + rest);
    DropAppend(h, more + rest, 2);
    assert h[2..] == "" && "" + (more + rest) == more + rest;
  }

  lemma DecodeStep(c: seq<Byte>, rest: seq<Byte>, first: char)
    requires c != [] && FirstChar(c + rest) == Some(first) && SequenceLength(c[0]) == |c|
    ensures Decode(c + rest) == if Decode(rest).None? then None else Some([first] + Decode(rest).value)
  {
    assert (c + rest)[0] == c[0] && (c + rest)[|c|..] == rest;
  }

  lemma {:induction false} DecodeGoesOn(s: string, more: seq<Byte>)
    requires forall i | 0 <= i < |s| :: 0x800 <= s[i] as int <= 0xFFFF
    ensures Decode(EncodeAll(s) + more) == if Decode(more).None? then None else Some(s + Decode(more).value)
  {
    hide Decode, FirstChar, Encode3;
    if s == "" {
      assert EncodeAll(s) + more == more;
      assert Decode(more).Some? ==> s + Decode(more).value == Decode(more).value;
    } else {
      var c, rest := Encode3(s[0]), EncodeAll(s[1..]) + more;
      EncodedIsWellFormed(s[0], rest);
      assert EncodeAll(s) + more == c + rest;
      DecodeStep(c, rest, s[0]);
      DecodeGoesOn(s[1..], more);
      if Decode(more).Some? {
        assert s + Decode(more).value == [s[0]] + (s[1..] + Decode(more).value);
      }
    }
  }

  /** A character of four bytes, such as an emoji, spoils the run it stands in: nothing of the run is repaired with it. */
  lemma FourBytesSpoilTheRun(s: string, c: char, rest: string)
    requires (forall i | 0 <= i < |s| :: 0x800 <= s[i] as int <= 0xFFFF) && c as int >= 0x10000
    ensures DecodedRun(Hex(EncodeAll(s)) + Hex(Encode4(c)) + rest) == None
  {
    hide Hex, Decode, RunBytes, EncodeAll, Encode4;
    var after := Hex(Encode4(c)) + rest;
    var bs := Encode4(c) + RunBytes(rest);
    EncodedFourIsWellFormed(c, RunBytes(rest));
    HexOfFour(Encode4(c), rest);
    RunGoesOn(s, after);
    assert Hex(EncodeAll(s)) + Hex(Encode4(c)) + rest == Hex(EncodeAll(s)) + after;
    DecodeStep(Encode4(c), RunBytes(rest), c);
    DecodeGoesOn(s, bs);
    assert Decode(bs).Some? ==> (s + Decode(bs).value)[|s|] == c && !Accepted(c);
  }

  /** Three bytes that no character is written as (section 4 of RFC 3629): a longer form than needed, or a surrogate. */
  predicate Malformed3(bs: seq<Byte>) {
    && |bs| == 3 && 0xE0 <= bs[0] <= 0xEF && Tail(bs[1]) && Tail(bs[2])
    && ((bs[0] == 0xE0 && bs[1] < 0xA0) || (bs[0] == 0xED && bs[1] > 0x9F))
  }

  lemma MalformedDecodesToNothing(bs: seq<Byte>, more: seq<Byte>)
    requires Malformed3(bs)
    ensures Decode(bs + more) == None
  {
    var all := bs + more;
    assert all[0] == bs[0] && all[1] == bs[1];
    assert FirstChar(all) == None;
  }

  /** Malformed bytes spoil the run they stand in as well. */
  lemma MalformedSpoilsTheRun(s: string, bs: seq<Byte>, rest: string)
    requires (forall i | 0 <= i < |s| :: 0x800 <= s[i] as int <= 0xFFFF) && Malformed3(bs)
    ensures DecodedRun(Hex(EncodeAll(s)) + Hex(bs) + rest) == None
  {
    hide Hex, Decode, RunBytes, EncodeAll, BytesOf, ChunkLength;
    var after := Hex(bs) + rest;
    HexOfThree(bs, rest);
    FirstChunk(after);
    RunGoesOn(s, after);
    assert Hex(EncodeAll(s)) + Hex(bs) + rest == Hex(EncodeAll(s)) + after;
    MalformedDecodesToNothing(bs, RunBytes(rest));
    DecodeGoesOn(s, bs + RunBytes(rest));
  }
}
