/**
 The tag-length-value codec: the writer `der_length`/`der_string` and the reader `_read_der_tlv`.
 */
module Der {
  import opened Bytes

  datatype DerError =
    | TruncatedAtTag
    | MultiByteTag
    | TruncatedAfterTag
    | BadLength
    | PastEndOfBuffer
    | NotSequenceTlv
    | TrailingBytes
    | NotSequence
    | NoExtensionsBlock

  /** What the reader reports: `(tag, tlv_start, value_start, value_end)`. */
  datatype Tlv = Tlv(tag: byte, start: nat, valueStart: nat, valueEnd: nat)

  /** `0x80 | n` on an octet-sized count, as the writer computes it. */
  function LongFormOctet(n: nat): byte {
    128 + n % 128
  }

  function DerLength(length: nat): bytes {
    if length < 0x80 then [length]
    else var encoded := ToBigEndian(length); [LongFormOctet(|encoded|)] + encoded
  }

  function DerString(tag: byte, value: bytes): bytes {
    [tag] + DerLength(|value|) + value
  }

  /** The result of reading one TLV at `pos`, every error branch included. */
  function TlvAt(buf: bytes, pos: nat): Result<Tlv, DerError> {
    if pos >= |buf| then Failure(TruncatedAtTag)
    else if buf[pos] % 32 == 31 then Failure(MultiByteTag)
    else if pos + 1 >= |buf| then Failure(TruncatedAfterTag)
    else
      var n := if buf[pos + 1] < 0x80 then 0 else buf[pos + 1] - 0x80;
      if buf[pos + 1] >= 0x80 && (n == 0 || pos + 2 + n > |buf|) then Failure(BadLength)
      else
        var length := if buf[pos + 1] < 0x80 then buf[pos + 1] else FromBigEndian(buf[pos + 2..pos + 2 + n]);
        if pos + 2 + n + length > |buf| then Failure(PastEndOfBuffer)
        else Success(Tlv(buf[pos], pos, pos + 2 + n, pos + 2 + n + length))
  }

  /** `_read_der_tlv`, with its advancing cursor. */
  method ReadDerTlv(buf: bytes, start: nat) returns (r: Result<Tlv, DerError>)
    ensures r == TlvAt(buf, start)
  {
    var pos := start;
    if pos >= |buf| { return Failure(TruncatedAtTag); }
    var tag := buf[pos];
    if tag % 32 == 31 { return Failure(MultiByteTag); }
    var tlvStart := pos;
    pos := pos + 1;
    if pos >= |buf| { return Failure(TruncatedAfterTag); }
    var lengthByte := buf[pos];
    pos := pos + 1;
    var length: nat;
    if lengthByte < 0x80 {
      length := lengthByte;
    } else {
      var n := lengthByte % 0x80;
      if n == 0 || pos + n > |buf| { return Failure(BadLength); }
      length := FromBigEndian(buf[pos..pos + n]);
      pos := pos + n;
    }
    var valueStart := pos;
    var valueEnd := valueStart + length;
    if valueEnd > |buf| { return Failure(PastEndOfBuffer); }
    return Success(Tlv(tag, tlvStart, valueStart, valueEnd));
  }

  // ---- what a TLV is, independently of both routines ----

  /** `octets` is one of the definite length forms for `length` (section 8.1.3 of X.690), shortest or not. */
  predicate IsDefiniteForm(octets: bytes, length: nat) {
    || (|octets| == 1 && octets[0] == length < 0x80)
    || (2 <= |octets| <= 127 && octets[0] == 0x80 + |octets| - 1 && FromBigEndian(octets[1..]) == length)
  }

  /** The form with the first octet 0xFF, which section 8.1.3.5 c) of X.690 rules out. */
  predicate IsReservedForm(octets: bytes, length: nat) {
    |octets| == 128 && octets[0] == 0xFF && FromBigEndian(octets[1..]) == length
  }

  /** The length forms the reader takes: those of the standard, and the reserved one. */
  predicate IsLengthForm(octets: bytes, length: nat) {
    IsDefiniteForm(octets, length) || IsReservedForm(octets, length)
  }

  /** `x` is exactly one TLV to the reader: low-form tag, length octets, then a value of that length. */
  ghost predicate IsEncoding(x: bytes, tag: byte, lengthOctets: bytes, value: bytes) {
    tag % 32 != 31 && IsLengthForm(lengthOctets, |value|) && x == [tag] + lengthOctets + value
  }

  /** The reader accepts exactly the encodings of the grammar, and reports their parts. */
  lemma ReaderAcceptsTheGrammar(buf: bytes, pos: nat, t: Tlv)
    ensures TlvAt(buf, pos) == Success(t) <==>
            && t.start == pos && pos + 1 < t.valueStart <= t.valueEnd <= |buf|
            && IsEncoding(buf[pos..t.valueEnd], t.tag, buf[pos + 1..t.valueStart], buf[t.valueStart..t.valueEnd])
  {
    if t.start == pos && pos + 1 < t.valueStart <= t.valueEnd <= |buf| {
      var octets := buf[pos + 1..t.valueStart];
      assert buf[pos..t.valueEnd] == [buf[pos]] + octets + buf[t.valueStart..t.valueEnd];
      assert ([t.tag] + octets + buf[t.valueStart..t.valueEnd])[0] == t.tag;
      assert octets[0] == buf[pos + 1];
      assert octets[1..] == buf[pos + 2..t.valueStart];
    }
    if TlvAt(buf, pos) == Success(t) {
      assert buf[pos + 1] >= 0x80 ==> t.valueStart == pos + 2 + (buf[pos + 1] - 0x80);
    }
  }

  /** An accepted TLV conforms to section 8.1.3 of X.690 exactly when its first length octet is not 0xFF. */
  lemma ConformsUnlessReserved(buf: bytes, pos: nat)
    requires TlvAt(buf, pos).Success?
    ensures var t := TlvAt(buf, pos).value;
            pos + 1 < t.valueStart <= t.valueEnd <= |buf|
            && (IsDefiniteForm(buf[pos + 1..t.valueStart], t.valueEnd - t.valueStart) <==> buf[pos + 1] != 0xFF)
  {
    var t := TlvAt(buf, pos).value;
    ReaderAcceptsTheGrammar(buf, pos, t);
    assert buf[pos + 1..t.valueStart][0] == buf[pos + 1];
  }

  function Zeros(n: nat): bytes {
    seq(n, _ => 0)
  }

  lemma {:induction false} ZerosAreZero(n: nat)
    ensures FromBigEndian(Zeros(n)) == 0
  {
    if n > 0 {
      ZerosAreZero(n - 1);
      assert Zeros(n)[..n - 1] == Zeros(n - 1);
    }
  }

  /** An empty SEQUENCE with the reserved length form: one TLV to the reader, none to the standard. */
  lemma ReservedFormIsAccepted()
    ensures var x := [0x30, 0xFF] + Zeros(127);
            && TlvAt(x, 0) == Success(Tlv(0x30, 0, 129, 129)) && IsTlv(x) && Value(x) == []
            && !IsDefiniteForm(x[1..129], 0)
  {
    var x := [0x30, 0xFF] + Zeros(127);
    assert x[2..129] == Zeros(127);
    ZerosAreZero(127);
  }

  /** What each of the reader's errors says of the buffer; with none of them to report it succeeds. */
  lemma ReaderErrors(buf: bytes, pos: nat)
    ensures TlvAt(buf, pos) == Failure(TruncatedAtTag) <==> pos >= |buf|
    ensures TlvAt(buf, pos) == Failure(MultiByteTag) <==> pos < |buf| && buf[pos] % 32 == 31
    ensures TlvAt(buf, pos) == Failure(TruncatedAfterTag) <==> pos + 1 == |buf| && buf[pos] % 32 != 31
    ensures TlvAt(buf, pos) == Failure(BadLength) <==>
            pos + 1 < |buf| && buf[pos] % 32 != 31
            && (buf[pos + 1] == 0x80 || (buf[pos + 1] > 0x80 && pos + 2 + (buf[pos + 1] - 0x80) > |buf|))
    ensures TlvAt(buf, pos).Failure? ==>
            TlvAt(buf, pos).error in {TruncatedAtTag, MultiByteTag, TruncatedAfterTag, BadLength, PastEndOfBuffer}
  {
  }

  /** Reading depends only on the octets of the TLV itself, wherever they sit. */
  lemma ReadingIsLocal(a: bytes, p: nat, b: bytes, q: nat)
    requires TlvAt(a, p).Success?
    requires var n := TlvAt(a, p).value.valueEnd - p; q + n <= |b| && a[p..p + n] == b[q..q + n]
    ensures var t := TlvAt(a, p).value;
            TlvAt(b, q) == Success(Tlv(t.tag, q, q + (t.valueStart - p), q + (t.valueEnd - p)))
  {
    var t := TlvAt(a, p).value;
    var x := a[p..t.valueEnd];
    assert x[0] == a[p] == b[q];
    assert x[1] == a[p + 1] == b[q + 1];
    if a[p + 1] >= 0x80 {
      SliceOfSlice(a, p, t.valueEnd, 2, t.valueStart - p);
      SliceOfSlice(b, q, q + |x|, 2, t.valueStart - p);
    }
  }

  /** Reading at a position is reading what stands from there to the end of the buffer, errors included. */
  lemma ReadingASuffix(buf: bytes, pos: nat)
    requires pos <= |buf|
    ensures TlvAt(buf, pos) == match TlvAt(buf[pos..], 0)
                               case Failure(e) => Failure(e)
                               case Success(t) => Success(Tlv(t.tag, pos, pos + t.valueStart, pos + t.valueEnd))
  {
    var s := buf[pos..];
    if 2 <= |s| && s[1] >= 0x80 {
      var n := s[1] - 0x80;
      if 2 + n <= |s| { assert s[2..2 + n] == buf[pos + 2..pos + 2 + n]; }
    }
  }

  /** `x` is one TLV and nothing else. */
  predicate IsTlv(x: bytes) {
    var r := TlvAt(x, 0);
    r.Success? && r.value.valueEnd == |x|
  }

  function Value(x: bytes): bytes
    requires IsTlv(x)
  {
    x[TlvAt(x, 0).value.valueStart..]
  }

  /** The first TLV of `buf` and what follows it. */
  function Split(buf: bytes): (r: Option<(bytes, bytes)>)
    ensures r.Some? ==> |r.value.1| < |buf|
  {
    var r := TlvAt(buf, 0);
    if r.Failure? then None else Some((buf[..r.value.valueEnd], buf[r.value.valueEnd..]))
  }

  /** `buf` cut into consecutive TLVs. */
  function SplitAll(buf: bytes): Option<seq<bytes>>
    decreases |buf|
  {
    if buf == [] then Some([])
    else
      var (x, rest) :- Split(buf);
      var xs :- SplitAll(rest);
      Some([x] + xs)
  }

  lemma SplitTlv(x: bytes, rest: bytes)
    requires IsTlv(x)
    ensures Split(x + rest) == Some((x, rest))
  {
    ReadingIsLocal(x, 0, x + rest, 0);
  }

  /** `Split` yields a TLV, and nothing is lost. */
  lemma SplitParts(buf: bytes)
    requires Split(buf).Some?
    ensures IsTlv(Split(buf).value.0) && Split(buf).value.0 + Split(buf).value.1 == buf
  {
    var t := TlvAt(buf, 0).value;
    ReadingIsLocal(buf, 0, buf[..t.valueEnd], 0);
  }

  /** Cutting and joining are inverse exactly on lists of TLVs. */
  lemma {:induction false} SplitAllInvertsJoin(xs: seq<bytes>)
    ensures SplitAll(Join(xs)) == Some(xs) <==> forall x <- xs :: IsTlv(x)
    decreases |xs|
  {
    if forall x <- xs :: IsTlv(x) {
      if xs != [] {
        assert xs[0] in xs && forall x <- xs[1..] :: x in xs;
        SplitTlv(xs[0], Join(xs[1..]));
        SplitAllInvertsJoin(xs[1..]);
        assert [xs[0]] + xs[1..] == xs;
      }
    } else if SplitAll(Join(xs)).Some? {
      SplitAllParts(Join(xs));
    }
  }

  lemma {:induction false} SplitAllParts(buf: bytes)
    requires SplitAll(buf).Some?
    ensures Join(SplitAll(buf).value) == buf && forall x <- SplitAll(buf).value :: IsTlv(x)
    decreases |buf|
  {
    if buf != [] {
      SplitParts(buf);
      SplitAllParts(Split(buf).value.1);
    }
  }

  // ---- writer against reader ----

  /** What the writer emits is a form the reader takes exactly below 256^127. */
  lemma DerLengthForm(length: nat)
    ensures IsLengthForm(DerLength(length), length) <==> length < Pow256(127)
  {
    hide Pow256, FromBigEndian;
    if length < 0x80 {
      OctetBelowPow256(length, 127);
    } else {
      ToBigEndianLength(length, 127);
      ToBigEndianValue(length);
    }
  }

  /** What the writer emits is a form of the standard exactly below 256^126. */
  lemma DerLengthConforms(length: nat)
    ensures IsDefiniteForm(DerLength(length), length) <==> length < Pow256(126)
  {
    hide Pow256, FromBigEndian;
    if length < 0x80 {
      OctetBelowPow256(length, 126);
    } else {
      ToBigEndianLength(length, 126);
      ToBigEndianValue(length);
    }
  }

  /**
   In any context, the octets written for `(tag, value)` read back as that tag and exactly that value
   precisely when the tag has the low form and the length needs at most 127 octets.
   */
  lemma ReadBack(pre: bytes, tag: byte, value: bytes, post: bytes)
    ensures var x := DerString(tag, value);
            TlvAt(pre + x + post, |pre|) == Success(Tlv(tag, |pre|, |pre| + |x| - |value|, |pre| + |x|))
            <==> tag % 32 != 31 && |value| < Pow256(127)
  {
    hide TlvAt, IsLengthForm, Pow256, DerLength;
    var x := DerString(tag, value);
    var buf := pre + x + post;
    WrittenSlices(pre, tag, value, post);
    ReaderAcceptsTheGrammar(buf, |pre|, Tlv(tag, |pre|, |pre| + |x| - |value|, |pre| + |x|));
    DerLengthForm(|value|);
  }

  lemma WrittenSlices(pre: bytes, tag: byte, value: bytes, post: bytes)
    ensures var x := DerString(tag, value);
            var buf, start, end := pre + x + post, |pre| + |x| - |value|, |pre| + |x|;
            && start == |pre| + 1 + |DerLength(|value|)| > |pre| + 1
            && buf[|pre|..end] == x && buf[|pre| + 1..start] == DerLength(|value|) && buf[start..end] == value
  {
    var x := DerString(tag, value);
    var buf, octets := pre + x + post, DerLength(|value|);
    assert buf[|pre|..|pre| + |x|] == x;
    SliceOfSlice(buf, |pre|, |pre| + |x|, 1, 1 + |octets|);
    SliceOfSlice(buf, |pre|, |pre| + |x|, 1 + |octets|, |x|);
    assert x[1..1 + |octets|] == octets && x[1 + |octets|..] == value;
  }

  /** `ReadBack` without a context: what is written is one TLV holding `value`. */
  lemma WrittenIsTlv(tag: byte, value: bytes)
    ensures IsTlv(DerString(tag, value)) && Value(DerString(tag, value)) == value
            <==> tag % 32 != 31 && |value| < Pow256(127)
  {
    hide TlvAt, Pow256, DerLength;
    var x := DerString(tag, value);
    ReadBack([], tag, value, []);
    assert [] + x + [] == x;
    WholeTlv(x, tag, |x| - |value|);
    assert x[|x| - |value|..] == value;
  }

  lemma WholeTlv(x: bytes, tag: byte, valueStart: nat)
    requires valueStart <= |x|
    ensures TlvAt(x, 0) == Success(Tlv(tag, 0, valueStart, |x|))
            <==> IsTlv(x) && x[0] == tag && |Value(x)| == |x| - valueStart
  {
  }

  /** If a written string is one TLV at all, it holds the value that was written. */
  lemma WrittenTlvIsWhole(tag: byte, value: bytes)
    requires IsTlv(DerString(tag, value))
    ensures Value(DerString(tag, value)) == value
  {
    var x := DerString(tag, value);
    hide Pow256;
    if |value| >= Pow256(127) {
      OctetBelowPow256(0x80, 127);
      ToBigEndianLength(|value|, 127);
      HeaderIsShort(x);
      RewritingIsMinimal(x);
      assert false;
    }
    assert x[0] == tag && tag % 32 != 31;
    WrittenIsTlv(tag, value);
  }

  lemma HeaderIsShort(x: bytes)
    requires IsTlv(x)
    ensures |x| - |Value(x)| <= 129 && |Value(x)| < Pow256(127)
  {
    var t := TlvAt(x, 0).value;
    ReaderAcceptsTheGrammar(x, 0, t);
    ShortestLengthForm(x[1..t.valueStart], |Value(x)|);
  }

  /** The writer loses nothing: octets determine the value, at any length. */
  lemma DerStringInjective(tag: byte, v: bytes, w: bytes)
    requires DerString(tag, v) == DerString(tag, w)
    ensures v == w
  {
    LengthOctetsGrow(|v|, |w|);
    LengthOctetsGrow(|w|, |v|);
    assert v == DerString(tag, v)[1 + |DerLength(|v|)|..];
    assert w == DerString(tag, w)[1 + |DerLength(|w|)|..];
  }

  lemma LengthOctetsGrow(m: nat, n: nat)
    ensures m <= n ==> |DerLength(m)| <= |DerLength(n)|
  {
    if m <= n {
      ToBigEndianLength(n, |ToBigEndian(n)|);
      ToBigEndianLength(m, |ToBigEndian(n)|);
    }
  }

  /**
   Writing an accepted TLV again never takes more octets than were read, takes fewer exactly when the
   length was not in shortest form (section 10.1 of X.690), and otherwise gives the same octets.
   */
  lemma RewritingIsMinimal(x: bytes)
    requires IsTlv(x)
    ensures |DerString(x[0], Value(x))| <= |x|
    ensures |DerString(x[0], Value(x))| == |x| <==> DerString(x[0], Value(x)) == x
    ensures IsTlv(DerString(x[0], Value(x))) && Value(DerString(x[0], Value(x))) == Value(x)
  {
    var t := TlvAt(x, 0).value;
    ReaderAcceptsTheGrammar(x, 0, t);
    var octets := x[1..t.valueStart];
    assert x == [x[0]] + octets + Value(x);
    ShortestLengthForm(octets, |Value(x)|);
    WrittenIsTlv(x[0], Value(x));
    var y := DerString(x[0], Value(x));
    if y == x { assert octets == y[1..t.valueStart] == DerLength(|Value(x)|); }
  }

  /** `DerLength` is the shortest of all length forms for a length, and the only one of its size. */
  lemma ShortestLengthForm(octets: bytes, n: nat)
    requires IsLengthForm(octets, n)
    ensures n < Pow256(127)
    ensures |DerLength(n)| <= |octets|
    ensures |DerLength(n)| == |octets| <==> DerLength(n) == octets
  {
    hide Pow256, FromBigEndian, ToBigEndian;
    if |octets| == 1 {
      OctetBelowPow256(n, 127);
    } else {
      FromBigEndianBound(octets[1..]);
      Pow256Monotone(|octets| - 1, 127);
      ToBigEndianLength(n, |octets| - 1);
      LeadingZeroIsNotMinimal(octets[1..]);
      FromBigEndianMinimal(octets[1..]);
    }
  }

  lemma {:induction false} LeadingZeroIsNotMinimal(s: bytes)
    requires s != []
    ensures |ToBigEndian(FromBigEndian(s))| == |s| <==> s[0] != 0
  {
    FromBigEndianMinimal(s);
    if s[0] == 0 {
      assert FromBigEndian(s) == FromBigEndian(s[1..]) by { DropLeadingZero(s); }
      FromBigEndianBound(s[1..]);
      ToBigEndianLength(FromBigEndian(s), |s| - 1);
    }
  }

  lemma {:induction false} DropLeadingZero(s: bytes)
    requires s != [] && s[0] == 0
    ensures FromBigEndian(s) == FromBigEndian(s[1..])
  {
    if |s| > 1 {
      DropLeadingZero(s[..|s| - 1]);
      assert s[..|s| - 1][1..] == s[1..][..|s| - 2];
    }
  }
}
