/** UTF-8 and UTF-16 (src/boot/unicode.cpp). Bytes, 16-bit units and code points are numbers; masks
    and shifts by k bits are remainders and quotients by powers of two. */
module Unicode {
  import opened Options

  type Byte = b: nat | b < 256
  type Unit = u: nat | u < 0x1_0000

  const ERROR: nat := 0xffff_ffff
  const POINT_END: nat := 0x11_0000

  /** A string's element, or the zero that stands behind the last. */
  function At(s: seq<nat>, i: nat): nat {
    if i < |s| then s[i] else 0
  }

  predicate IsContinuation(b: nat) {
    b / 64 == 2
  }

  /** The code point of a chunk of one to four bytes (lines 25-55). */
  function ToCodePoint(s: seq<Byte>): nat {
    if At(s, 0) / 128 == 0 && 1 == |s| then s[0]
    else if At(s, 0) / 32 == 6 && 2 == |s| && IsContinuation(s[1]) then s[0] % 32 * 64 + s[1] % 64
    else if At(s, 0) / 16 == 14 && 3 == |s| && IsContinuation(s[1]) && IsContinuation(s[2]) then
      s[0] % 16 * 4096 + s[1] % 64 * 64 + s[2] % 64
    else if At(s, 0) / 8 == 30 && 4 == |s| && IsContinuation(s[1]) && IsContinuation(s[2]) && IsContinuation(s[3]) then
      s[0] % 8 * 262144 + s[1] % 64 * 4096 + s[2] % 64 * 64 + s[3] % 64
    else ERROR
  }

  /** The code point of one or two units (lines 110-124); the second is zero if there is none. */
  function PairToCodePoint(word1: Unit, word2: Unit): nat {
    if (0xd800 >= word1 || 0xe000 <= word1) && 0 == word2 then word1
    else if 0xd800 <= word1 <= 0xdbff && 0xdc00 <= word2 <= 0xdfff then
      (word1 - 0xd800) * 1024 + (word2 - 0xdc00) + 0x1_0000
    else ERROR
  }

  /** The bytes of a code point; none if there is no such code point (lines 126-151). */
  function ToUtf8(point: nat): seq<Byte> {
    if point < 0x80 then [point]
    else if point < 0x800 then [0xc0 + point / 64 % 32, 0x80 + point % 64]
    else if point < 0x1_0000 then [0xe0 + point / 4096 % 16, 0x80 + point / 64 % 64, 0x80 + point % 64]
    else if point < POINT_END then
      [0xf0 + point / 262144 % 8, 0x80 + point / 4096 % 64, 0x80 + point / 64 % 64, 0x80 + point % 64]
    else []
  }

  predicate Accepted(chunk: seq<Byte>) {
    ToCodePoint(chunk) != ERROR
  }

  /** Every code point is read back from its bytes. */
  lemma PointRoundTrip(point: nat)
    requires point < POINT_END
    ensures ToUtf8(point) != [] && ToCodePoint(ToUtf8(point)) == point
  {
    if point >= 0x1_0000 {
      FourRoundTrip(point);
    } else if point >= 0x800 {
      ThreeRoundTrip(point);
    } else if point >= 0x80 {
      Digits(point);
      TwoBytes(point / 64, point % 64);
    }
  }

  lemma FourRoundTrip(point: nat)
    requires 0x1_0000 <= point < POINT_END
    ensures ToUtf8(point) != [] && ToCodePoint(ToUtf8(point)) == point
  {
    var a, b, c, d := point / 262144, point / 4096 % 64, point / 64 % 64, point % 64;
    Digits(point);
    FourBytes(a, b, c, d);
    assert a % 8 == a && ToUtf8(point) == [0xf0 + a, 0x80 + b, 0x80 + c, 0x80 + d];
  }

  lemma ThreeRoundTrip(point: nat)
    requires 0x800 <= point < 0x1_0000
    ensures ToUtf8(point) != [] && ToCodePoint(ToUtf8(point)) == point
  {
    var a, b, c := point / 4096, point / 64 % 64, point % 64;
    Digits(point);
    ThreeBytes(a, b, c);
    assert a % 16 == a && ToUtf8(point) == [0xe0 + a, 0x80 + b, 0x80 + c];
  }

  /** The digits of a number to base 64. */
  lemma Digits(point: nat)
    ensures point == point / 64 * 64 + point % 64
    ensures point / 64 == point / 4096 * 64 + point / 64 % 64
    ensures point / 4096 == point / 262144 * 64 + point / 4096 % 64
  {
    assert point / 4096 == point / 64 / 64 && point / 262144 == point / 64 / 64 / 64;
  }

  lemma TwoBytes(a: nat, b: nat)
    requires a < 32 && b < 64
    ensures ToCodePoint([0xc0 + a, 0x80 + b]) == a * 64 + b
  {
  }

  lemma ThreeBytes(a: nat, b: nat, c: nat)
    requires a < 16 && b < 64 && c < 64
    ensures ToCodePoint([0xe0 + a, 0x80 + b, 0x80 + c]) == a * 4096 + b * 64 + c
  {
  }

  lemma FourBytes(a: nat, b: nat, c: nat, d: nat)
    requires a < 8 && b < 64 && c < 64 && d < 64
    ensures ToCodePoint([0xf0 + a, 0x80 + b, 0x80 + c, 0x80 + d]) == a * 262144 + b * 4096 + c * 64 + d
  {
  }

  /** The least code point that needs as many bytes as a chunk has. */
  function Shortest(chunk: seq<Byte>): nat {
    if |chunk| <= 1 then 0 else if |chunk| == 2 then 0x80 else if |chunk| == 3 then 0x800 else 0x1_0000
  }

  /** A chunk is rewritten as it was exactly if it is the shortest for its code point, and that exists:
      longer forms are accepted all the same. */
  lemma ChunkRoundTripIff(chunk: seq<Byte>)
    requires Accepted(chunk)
    ensures ToUtf8(ToCodePoint(chunk)) == chunk <==> Shortest(chunk) <= ToCodePoint(chunk) < POINT_END
  {
    if |chunk| == 2 {
      TwoByteForm(chunk[0], chunk[1]);
    } else if |chunk| == 3 {
      ThreeByteForm(chunk[0], chunk[1], chunk[2]);
    } else if |chunk| == 4 {
      FourByteForm(chunk[0], chunk[1], chunk[2], chunk[3]);
    }
  }

  lemma TwoByteForm(b0: nat, b1: nat)
    requires b0 / 32 == 6 && IsContinuation(b1)
    ensures var p := b0 % 32 * 64 + b1 % 64;
      p < 0x800 && (p >= 0x80 ==> [0xc0 + p / 64 % 32, 0x80 + p % 64] == [b0, b1])
  {
    TwoDigits(b0 % 32, b1 % 64);
  }

  lemma ThreeByteForm(b0: nat, b1: nat, b2: nat)
    requires b0 / 16 == 14 && IsContinuation(b1) && IsContinuation(b2)
    ensures var p := b0 % 16 * 4096 + b1 % 64 * 64 + b2 % 64;
      p < 0x1_0000 && [0xe0 + p / 4096 % 16, 0x80 + p / 64 % 64, 0x80 + p % 64] == [b0, b1, b2]
  {
    FourDigits(0, b0 % 16, b1 % 64, b2 % 64);
  }

  lemma FourByteForm(b0: nat, b1: nat, b2: nat, b3: nat)
    requires b0 / 8 == 30 && IsContinuation(b1) && IsContinuation(b2) && IsContinuation(b3)
    ensures var p := b0 % 8 * 262144 + b1 % 64 * 4096 + b2 % 64 * 64 + b3 % 64;
      p < 0x20_0000 && [0xf0 + p / 262144 % 8, 0x80 + p / 4096 % 64, 0x80 + p / 64 % 64, 0x80 + p % 64]
        == [b0, b1, b2, b3]
  {
    FourDigits(b0 % 8, b1 % 64, b2 % 64, b3 % 64);
  }

  lemma TwoDigits(a: nat, b: nat)
    requires b < 64
    ensures (a * 64 + b) / 64 == a && (a * 64 + b) % 64 == b
  {
  }

  lemma FourDigits(a: nat, b: nat, c: nat, d: nat)
    requires a < 8 && b < 64 && c < 64 && d < 64
    ensures var p := a * 262144 + b * 4096 + c * 64 + d;
      p / 262144 == a && p / 4096 % 64 == b && p / 64 % 64 == c && p % 64 == d
  {
    var p := a * 262144 + b * 4096 + c * 64 + d;
    TwoDigits((a * 64 + b) * 64 + c, d);
    TwoDigits(a * 64 + b, c);
    TwoDigits(a, b);
    assert p / 4096 == p / 64 / 64 && p / 262144 == p / 64 / 64 / 64;
  }

  // ----- chunks of a byte string -----

  /** How many bytes a chunk has that begins with a byte; 0 if none does. */
  function Lead(b: nat): nat {
    if b / 128 == 0 then 1 else if b / 32 == 6 then 2 else if b / 16 == 14 then 3 else if b / 8 == 30 then 4 else 0
  }

  predicate AllContinue(s: seq<Byte>) {
    forall i | 0 <= i < |s| :: IsContinuation(s[i])
  }

  lemma AcceptedIs(chunk: seq<Byte>)
    ensures Accepted(chunk) <==> chunk != [] && Lead(chunk[0]) == |chunk| && AllContinue(chunk[1..])
  {
    if chunk != [] {
      var rest := chunk[1..];
      assert |chunk| >= 2 ==> rest[0] == chunk[1];
      assert |chunk| >= 3 ==> rest[1] == chunk[2];
      assert |chunk| >= 4 ==> rest[2] == chunk[3];
    }
  }

  predicate IsValid(s: seq<Byte>) {
    s == [] || (var n := Lead(s[0]); 0 < n <= |s| && AllContinue(s[1..n]) && IsValid(s[n..]))
  }

  function Chunks(s: seq<Byte>): seq<seq<Byte>>
    requires IsValid(s)
  {
    if s == [] then [] else [s[..Lead(s[0])]] + Chunks(s[Lead(s[0])..])
  }

  function Join(chunks: seq<seq<Byte>>): seq<Byte> {
    if chunks == [] then [] else chunks[0] + Join(chunks[1..])
  }

  /** The string is the chunks one after another, each of which has a code point. */
  predicate Splits(s: seq<Byte>, chunks: seq<seq<Byte>>) {
    Join(chunks) == s && forall i | 0 <= i < |chunks| :: Accepted(chunks[i])
  }

  lemma {:induction false} ValidSplits(s: seq<Byte>)
    requires IsValid(s)
    ensures Splits(s, Chunks(s))
    decreases |s|
  {
    if s != [] {
      var first, rest := s[..Lead(s[0])], s[Lead(s[0])..];
      ValidSplits(rest);
      FirstAccepted(s, first);
      SplitsMore(first, rest, Chunks(rest));
      assert s == first + rest;
    }
  }

  lemma FirstAccepted(s: seq<Byte>, first: seq<Byte>)
    requires s != [] && IsValid(s) && first == s[..Lead(s[0])]
    ensures Accepted(first)
  {
    AcceptedIs(first);
    assert first[1..] == s[1..Lead(s[0])];
  }

  lemma SplitsMore(first: seq<Byte>, rest: seq<Byte>, chunks: seq<seq<Byte>>)
    requires Accepted(first) && Splits(rest, chunks)
    ensures Splits(first + rest, [first] + chunks)
  {
    assert ([first] + chunks)[1..] == chunks;
  }

  /** A string that splits is valid, and there is only one way to split it. */
  lemma {:induction false} SplitIsUnique(s: seq<Byte>, chunks: seq<seq<Byte>>)
    requires Splits(s, chunks)
    ensures IsValid(s) && Chunks(s) == chunks
    decreases |chunks|
  {
    if chunks != [] {
      var first, rest := chunks[0], Join(chunks[1..]);
      AcceptedIs(first);
      assert s == first + rest && s[0] == first[0];
      var n := |first|;
      assert s[..n] == first && s[n..] == rest && s[1..n] == first[1..];
      assert Splits(rest, chunks[1..]);
      SplitIsUnique(rest, chunks[1..]);
      assert chunks == [first] + chunks[1..];
    }
  }

  /** Whether a string is UTF-8 (lines 57-91): exactly if it splits into chunks that have code points. */
  method IsValidUtf8(s: seq<Byte>) returns (valid: bool)
    ensures valid <==> exists chunks :: Splits(s, chunks)
  {
    valid := Scan(s);
    if valid {
      ValidSplits(s);
    } else {
      forall chunks | Splits(s, chunks) ensures false {
        SplitIsUnique(s, chunks);
      }
    }
  }

  method Scan(s: seq<Byte>) returns (valid: bool)
    ensures valid <==> IsValid(s)
  {
    if |s| == 0 {
      return true;
    }
    var i := 0;
    while i < |s|
      invariant i <= |s| && (IsValid(s) <==> IsValid(s[i..]))
    {
      var n := ChunkAt(s, i);
      ValidFrom(s, i, n);
      if n == 0 {
        return false;
      }
      i := i + n;
    }
    valid := true;
  }

  /** How many bytes the chunk at i has; 0 if there is none (lines 63-88). */
  method ChunkAt(s: seq<Byte>, i: nat) returns (n: nat)
    requires i < |s|
    ensures n == if HasChunk(s, i) then Lead(s[i]) else 0
  {
    if s[i] / 128 == 0 {
      n := 1;
    } else if s[i] / 32 == 6 && i + 1 < |s| && IsContinuation(s[i + 1]) {
      n := 2;
    } else if s[i] / 16 == 14 && i + 2 < |s| && IsContinuation(s[i + 1]) && IsContinuation(s[i + 2]) {
      n := 3;
    } else if s[i] / 8 == 30 && i + 3 < |s| && IsContinuation(s[i + 1]) && IsContinuation(s[i + 2])
      && IsContinuation(s[i + 3]) {
      n := 4;
    } else {
      n := 0;
    }
  }

  predicate HasChunk(s: seq<Byte>, i: nat)
    requires i < |s|
  {
    0 < Lead(s[i]) && i + Lead(s[i]) <= |s| && forall k | i < k < i + Lead(s[i]) :: IsContinuation(s[k])
  }

  lemma ValidFrom(s: seq<Byte>, i: nat, n: nat)
    requires i < |s| && n == if HasChunk(s, i) then Lead(s[i]) else 0
    ensures i + n <= |s| && (IsValid(s[i..]) <==> n > 0 && IsValid(s[i + n..]))
  {
    var rest, k := s[i..], Lead(s[i]);
    if 0 < k && i + k <= |s| {
      assert rest[1..k] == s[i + 1..i + k] && rest[k..] == s[i + k..];
      assert AllContinue(s[i + 1..i + k]) <==> HasChunk(s, i) by {
        assert forall m | i < m < i + k :: s[m] == s[i + 1..i + k][m - i - 1];
      }
    }
  }

  // ----- UTF-16 (RFC 2781, section 2.2) -----

  predicate IsHigh(u: nat) {
    0xd800 <= u <= 0xdbff
  }

  predicate IsLow(u: nat) {
    0xdc00 <= u <= 0xdfff
  }

  /** A unit that is no surrogate, or a high surrogate and a low one, and so on. */
  predicate WellFormed(s: seq<Unit>) {
    if s == [] then true
    else if !IsHigh(s[0]) && !IsLow(s[0]) then WellFormed(s[1..])
    else |s| >= 2 && IsHigh(s[0]) && IsLow(s[1]) && WellFormed(s[2..])
  }

  /** Ten bits from each surrogate. */
  function PairPoint(high: nat, low: nat): nat
    requires IsHigh(high) && IsLow(low)
  {
    0x1_0000 + (high - 0xd800) * 0x400 + (low - 0xdc00)
  }

  /** The code points of a well-formed string. */
  function Decode(s: seq<Unit>): seq<nat>
    requires WellFormed(s)
  {
    if s == [] then []
    else if IsHigh(s[0]) then [PairPoint(s[0], s[1])] + Decode(s[2..])
    else [s[0] as nat] + Decode(s[1..])
  }

  /** The units that the code takes to stand for themselves: 0xd800 is one of them. */
  predicate Alone(u: nat) {
    0xd800 >= u || 0xe000 <= u
  }

  /** The code points that the code reads; none if it panics. */
  function Points(s: seq<Unit>): Option<seq<nat>> {
    if s == [] then Some([])
    else if Alone(s[0]) then Prepend(PairToCodePoint(s[0], 0), Points(s[1..]))
    else if |s| >= 2 && IsHigh(s[0]) && IsLow(s[1]) then Prepend(PairToCodePoint(s[0], s[1]), Points(s[2..]))
    else None
  }

  function Prepend(point: nat, points: Option<seq<nat>>): Option<seq<nat>> {
    if points.Some? then Some([point] + points.value) else None
  }

  function Encodings(points: seq<nat>): seq<seq<Byte>> {
    seq(|points|, i requires 0 <= i < |points| => ToUtf8(points[i]))
  }

  /** Converts a string to UTF-8 (lines 153-173); None stands for a panic. */
  method ToUtf8String(s: seq<Unit>) returns (r: Option<seq<Byte>>)
    ensures r.Some? <==> Points(s).Some?
    ensures r.Some? ==> r.value == Join(Encodings(Points(s).value))
    ensures (forall i | 0 <= i < |s| :: s[i] < 0x80) ==> r.Some? && r.value == s
  {
    var utf8: seq<Byte> := [];
    ghost var done: seq<nat> := [];
    StartOf(s);
    var i := 0;
    while i < |s|
      invariant IsPart(s, i, done, utf8)
      decreases |s| - i
    {
      if 0xd800 >= s[i] || 0xe000 <= s[i] {
        var point := PairToCodePoint(s[i], 0);
        UnitDone(s, i, done, utf8);
        utf8 := utf8 + ToUtf8(point);
        done := done + [point];
        i := i + 1;
      } else if 0xd800 <= s[i] <= 0xdbff && 0xdc00 <= At(s, i + 1) <= 0xdfff {
        var point := PairToCodePoint(s[i], s[i + 1]);
        PairDone(s, i, done, utf8);
        utf8 := utf8 + ToUtf8(point);
        done := done + [point];
        i := i + 2;
      } else {
        NonePanics(s, i, done, utf8);
        return None;
      }
    }
    AllDone(s, done, utf8);
    r := Some(utf8);
  }

  /** Up to i a string has the points `done`, and these the bytes. */
  ghost predicate IsPart(s: seq<Unit>, i: nat, done: seq<nat>, utf8: seq<Byte>) {
    i <= |s| && utf8 == Join(Encodings(done)) && Points(s) == After(done, Points(s[i..]))
  }

  lemma StartOf(s: seq<Unit>)
    ensures IsPart(s, 0, [], [])
  {
    assert s[0..] == s && (Points(s).Some? ==> [] + Points(s).value == Points(s).value);
  }

  lemma UnitDone(s: seq<Unit>, i: nat, done: seq<nat>, utf8: seq<Byte>)
    requires IsPart(s, i, done, utf8) && i < |s| && Alone(s[i])
    ensures var point := PairToCodePoint(s[i], 0); IsPart(s, i + 1, done + [point], utf8 + ToUtf8(point))
  {
    assert s[i..][1..] == s[i + 1..];
    AfterOneMore(done, PairToCodePoint(s[i], 0), Points(s[i + 1..]));
  }

  lemma PairDone(s: seq<Unit>, i: nat, done: seq<nat>, utf8: seq<Byte>)
    requires IsPart(s, i, done, utf8) && i + 1 < |s| && !Alone(s[i]) && IsHigh(s[i]) && IsLow(s[i + 1])
    ensures var point := PairToCodePoint(s[i], s[i + 1]); IsPart(s, i + 2, done + [point], utf8 + ToUtf8(point))
  {
    assert s[i..][1] == s[i + 1] && s[i..][2..] == s[i + 2..];
    AfterOneMore(done, PairToCodePoint(s[i], s[i + 1]), Points(s[i + 2..]));
  }

  lemma NonePanics(s: seq<Unit>, i: nat, done: seq<nat>, utf8: seq<Byte>)
    requires IsPart(s, i, done, utf8) && i < |s| && !Alone(s[i]) && !(IsHigh(s[i]) && IsLow(At(s, i + 1)))
    ensures Points(s).None? && exists k | 0 <= k < |s| :: s[k] >= 0x80
  {
    assert i + 1 < |s| ==> s[i..][1] == s[i + 1];
    assert s[i] >= 0x80;
  }

  lemma AllDone(s: seq<Unit>, done: seq<nat>, utf8: seq<Byte>)
    requires IsPart(s, |s|, done, utf8)
    ensures Points(s) == Some(done) && utf8 == Join(Encodings(done))
    ensures (forall i | 0 <= i < |s| :: s[i] < 0x80) ==> utf8 == s
  {
    assert s[|s|..] == [] && done + [] == done;
    if forall i | 0 <= i < |s| :: s[i] < 0x80 {
      AsciiStays(s);
    }
  }

  function After(done: seq<nat>, points: Option<seq<nat>>): Option<seq<nat>> {
    if points.Some? then Some(done + points.value) else None
  }

  lemma AfterOneMore(done: seq<nat>, point: nat, points: Option<seq<nat>>)
    ensures After(done, Prepend(point, points)) == After(done + [point], points)
    ensures Join(Encodings(done + [point])) == Join(Encodings(done)) + ToUtf8(point)
  {
    if points.Some? {
      assert done + ([point] + points.value) == done + [point] + points.value;
    }
    assert Encodings(done + [point]) == Encodings(done) + [ToUtf8(point)];
    JoinOneMore(Encodings(done), ToUtf8(point));
  }

  lemma {:induction false} JoinOneMore(chunks: seq<seq<Byte>>, chunk: seq<Byte>)
    ensures Join(chunks + [chunk]) == Join(chunks) + chunk
  {
    if chunks != [] {
      assert (chunks + [chunk])[1..] == chunks[1..] + [chunk];
      JoinOneMore(chunks[1..], chunk);
    }
  }

  /** A well-formed string is converted without a panic exactly if no unit is 0xd800, and then the
      code points are its own. */
  lemma {:induction false} WellFormedPoints(s: seq<Unit>)
    requires WellFormed(s)
    ensures Points(s).Some? <==> 0xd800 !in s
    ensures Points(s).Some? ==> Points(s).value == Decode(s)
    ensures forall i | 0 <= i < |Decode(s)| :: Decode(s)[i] < POINT_END
    decreases |s|
  {
    if s != [] {
      if IsHigh(s[0]) {
        WellFormedPoints(s[2..]);
        assert s == [s[0], s[1]] + s[2..];
        if s[0] == 0xd800 {
          assert s[1..][0] == s[1];
        }
      } else {
        WellFormedPoints(s[1..]);
        assert s == [s[0]] + s[1..];
      }
    }
  }

  lemma {:induction false} EncodingsSplit(points: seq<nat>)
    requires forall i | 0 <= i < |points| :: points[i] < POINT_END
    ensures Splits(Join(Encodings(points)), Encodings(points))
  {
    forall i | 0 <= i < |points| ensures Accepted(Encodings(points)[i]) {
      PointRoundTrip(points[i]);
    }
  }

  /** The UTF-8 of a well-formed string is valid, and chunk by chunk holds the string's code points. */
  lemma TranscodedRight(s: seq<Unit>)
    requires WellFormed(s) && 0xd800 !in s
    ensures Points(s).Some?
    ensures var bytes := Join(Encodings(Points(s).value));
      && IsValid(bytes) && |Chunks(bytes)| == |Decode(s)|
      && forall i | 0 <= i < |Decode(s)| :: ToCodePoint(Chunks(bytes)[i]) == Decode(s)[i]
  {
    WellFormedPoints(s);
    EncodingsSplit(Decode(s));
    SplitIsUnique(Join(Encodings(Decode(s))), Encodings(Decode(s)));
    forall i | 0 <= i < |Decode(s)| ensures ToCodePoint(Encodings(Decode(s))[i]) == Decode(s)[i] {
      PointRoundTrip(Decode(s)[i]);
    }
  }

  // ----- the table of RFC 3629, section 3 -----

  /** The bytes 0xxxxxxx, 110xxxxx 10xxxxxx, 1110xxxx 10xxxxxx 10xxxxxx or 11110xxx 10xxxxxx 10xxxxxx
      10xxxxxx with the code point's bits for x. */
  predicate LaidOut(point: nat, s: seq<nat>) {
    || (|s| == 1 && s[0] <= 0x7f && point == s[0])
    || (|s| == 2 && 0xc0 <= s[0] <= 0xdf && 0x80 <= s[1] <= 0xbf && point == (s[0] - 0xc0) * 64 + (s[1] - 0x80))
    || (|s| == 3 && 0xe0 <= s[0] <= 0xef && 0x80 <= s[1] <= 0xbf && 0x80 <= s[2] <= 0xbf
        && point == (s[0] - 0xe0) * 4096 + (s[1] - 0x80) * 64 + (s[2] - 0x80))
    || (|s| == 4 && 0xf0 <= s[0] <= 0xf7 && 0x80 <= s[1] <= 0xbf && 0x80 <= s[2] <= 0xbf && 0x80 <= s[3] <= 0xbf
        && point == (s[0] - 0xf0) * 262144 + (s[1] - 0x80) * 4096 + (s[2] - 0x80) * 64 + (s[3] - 0x80))
  }

  /** How many bytes the table gives a code point. */
  predicate InRow(point: nat, length: nat) {
    || (length == 1 && point <= 0x7f)
    || (length == 2 && 0x80 <= point <= 0x7ff)
    || (length == 3 && 0x800 <= point <= 0xffff)
    || (length == 4 && 0x1_0000 <= point <= 0x10_ffff)
  }

  /** Reading accepts exactly the four layouts, each for the code point in it. */
  lemma ReadIffLaidOut(point: nat, chunk: seq<Byte>)
    ensures Accepted(chunk) && ToCodePoint(chunk) == point <==> LaidOut(point, chunk)
  {
  }

  /** The same of reading; and writing gives the layout of the table's row, and no other bytes are laid
      out in that row. */
  lemma TableOfLayouts(point: nat, chunk: seq<Byte>)
    ensures Accepted(chunk) && ToCodePoint(chunk) == point <==> LaidOut(point, chunk)
    ensures point < POINT_END && ToUtf8(point) == chunk <==> LaidOut(point, chunk) && InRow(point, |chunk|)
  {
    ReadIffLaidOut(point, chunk);
    if point < POINT_END {
      PointRoundTrip(point);
      ReadIffLaidOut(point, ToUtf8(point));
    }
    if LaidOut(point, chunk) && InRow(point, |chunk|) {
      ChunkRoundTripIff(chunk);
    }
  }

  /** Units below 0x80 are converted to the same numbers. */
  lemma {:induction false} AsciiStays(s: seq<Unit>)
    requires forall i | 0 <= i < |s| :: s[i] < 0x80
    ensures Points(s) == Some(s)
    ensures Join(Encodings(s)) == s
  {
    if s != [] {
      AsciiStays(s[1..]);
      assert s == [s[0]] + s[1..];
      assert Encodings(s)[0] == [s[0]] && Encodings(s)[1..] == Encodings(s[1..]);
    }
  }
}
