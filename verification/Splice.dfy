/**
 `_rewrite_tbs_and_resign`: replace the issuer, the subject and the extensions of a signed certificate
 by offsets into its octets, recompute the enclosing lengths, and sign the result.
 */
module Splice {
  import opened Bytes
  import opened Der
  import opened Certificates

  /** Signing, as a deterministic function of the octets for a fixed key and hash. */
  type Signer = bytes -> bytes

  /** Python's `s[a:b]` for non-negative bounds: out-of-range bounds shrink the slice. */
  function Slice(s: bytes, a: nat, b: nat): bytes {
    var hi := if b <= |s| then b else |s|;
    if a <= hi then s[a..hi] else []
  }

  /** `(start, end, replacement)`. */
  datatype Edit = Edit(start: nat, end: nat, replacement: bytes)

  /** The offsets the walk over a certificate finds. */
  datatype Layout = Layout(
    tbsStart: nat, tbsEnd: nat, sigAlgEnd: nat, issuerStart: nat, issuerEnd: nat,
    subjectStart: nat, subjectEnd: nat, extensions: Option<Tlv>)

  // ---- the walk, the edits and the splice as functions of the input ----

  /** `_validate_single_tlv`. */
  function ValidateSingle(raw: Option<bytes>): Result<(), DerError> {
    if raw.None? then Success(())
    else if raw.value == [] || raw.value[0] != SEQUENCE then Failure(NotSequenceTlv)
    else
      var t :- TlvAt(raw.value, 0);
      if t.valueEnd != |raw.value| then Failure(TrailingBytes) else Success(())
  }

  /** The scan over the fields behind the public key for the `[3]` wrapper. */
  function FindExtensions(der: bytes, pos: nat, end: nat): Result<Option<Tlv>, DerError>
    decreases if pos <= |der| then |der| - pos else 0
  {
    if pos >= end then Success(None)
    else
      var t :- TlvAt(der, pos);
      if t.tag == EXTENSIONS_TAG then Success(Some(t)) else FindExtensions(der, t.valueEnd, end)
  }

  function Walk(der: bytes): Result<Layout, DerError> {
    var outer :- TlvAt(der, 0);
    if outer.tag != SEQUENCE then Failure(NotSequence) else
    var tbs :- TlvAt(der, outer.valueStart);
    if tbs.tag != SEQUENCE then Failure(NotSequence) else
    var sigAlg :- TlvAt(der, tbs.valueEnd);
    var first :- TlvAt(der, tbs.valueStart);
    var serial :- if first.tag == VERSION_TAG then TlvAt(der, first.valueEnd) else Success(first);
    var algorithm :- TlvAt(der, serial.valueEnd);
    var issuer :- TlvAt(der, algorithm.valueEnd);
    var validity :- TlvAt(der, issuer.valueEnd);
    var subject :- TlvAt(der, validity.valueEnd);
    var spki :- TlvAt(der, subject.valueEnd);
    var extensions :- FindExtensions(der, spki.valueEnd, tbs.valueEnd);
    Success(Layout(tbs.valueStart, tbs.valueEnd, sigAlg.valueEnd, algorithm.valueEnd, issuer.valueEnd,
                   validity.valueEnd, subject.valueEnd, extensions))
  }

  function NameEdit(start: nat, end: nat, raw: Option<bytes>): seq<Edit> {
    if raw.Some? then [Edit(start, end, raw.value)] else []
  }

  function ExtensionsEdit(der: bytes, extensions: Option<Tlv>, blobs: seq<bytes>): Result<seq<Edit>, DerError> {
    if blobs == [] then Success([])
    else if extensions.None? then Failure(NoExtensionsBlock)
    else
      var list :- TlvAt(der, extensions.value.valueStart);
      if list.tag != SEQUENCE then Failure(NotSequence)
      else
        var inner := Slice(der, list.valueStart, list.valueEnd) + Join(blobs);
        Success([Edit(extensions.value.start, extensions.value.valueEnd,
                      DerString(EXTENSIONS_TAG, DerString(SEQUENCE, inner)))])
  }

  function Insert(e: Edit, edits: seq<Edit>): seq<Edit> {
    if edits == [] || e.start <= edits[0].start then [e] + edits else [edits[0]] + Insert(e, edits[1..])
  }

  /** `edits.sort(key=lambda e: e[0])`: stable. */
  function SortByStart(edits: seq<Edit>): seq<Edit> {
    if edits == [] then [] else Insert(edits[0], SortByStart(edits[1..]))
  }

  function ApplyEdits(der: bytes, cursor: nat, end: nat, edits: seq<Edit>): bytes
    decreases |edits|
  {
    if edits == [] then Slice(der, cursor, end)
    else Slice(der, cursor, edits[0].start) + (edits[0].replacement + ApplyEdits(der, edits[0].end, end, edits[1..]))
  }

  /** A certificate around the TBS contents octets `v`, signed over the whole TBS TLV. */
  function Resigned(v: bytes, sigAlg: bytes, sign: Signer): bytes {
    var tbsTlv := DerString(SEQUENCE, v);
    Print(tbsTlv, sigAlg, DerString(BIT_STRING, [0] + sign(tbsTlv)))
  }

  function Rewrite(der: bytes, subject: Option<bytes>, issuer: Option<bytes>, blobs: seq<bytes>, sign: Signer)
    : Result<bytes, DerError>
  {
    var _ :- ValidateSingle(subject);
    var _ :- ValidateSingle(issuer);
    var l :- Walk(der);
    var extensionsEdit :- ExtensionsEdit(der, l.extensions, blobs);
    var edits := NameEdit(l.issuerStart, l.issuerEnd, issuer)
                 + NameEdit(l.subjectStart, l.subjectEnd, subject) + extensionsEdit;
    Success(Resigned(ApplyEdits(der, l.tbsStart, l.tbsEnd, SortByStart(edits)),
                     Slice(der, l.tbsEnd, l.sigAlgEnd), sign))
  }

  // ---- the routine itself ----

  method ValidateSingleTlv(raw: Option<bytes>) returns (r: Result<(), DerError>)
    ensures r == ValidateSingle(raw)
  {
    if raw.None? { return Success(()); }
    if raw.value == [] || raw.value[0] != SEQUENCE { return Failure(NotSequenceTlv); }
    var t :- ReadDerTlv(raw.value, 0);
    if t.valueEnd != |raw.value| { return Failure(TrailingBytes); }
    return Success(());
  }

  /** The scan over the optional fields. */
  method ScanTrailing(der: bytes, start: nat, end: nat) returns (r: Result<Option<Tlv>, DerError>)
    ensures r == FindExtensions(der, start, end)
  {
    var pos := start;
    while pos < end
      invariant FindExtensions(der, pos, end) == FindExtensions(der, start, end)
      decreases if pos <= |der| then |der| - pos else 0
    {
      var t :- ReadDerTlv(der, pos);
      if t.tag == EXTENSIONS_TAG { return Success(Some(t)); }
      pos := t.valueEnd;
    }
    return Success(None);
  }

  /** The part that walks the certificate with an advancing cursor. */
  method WalkCertificate(der: bytes) returns (r: Result<Layout, DerError>)
    ensures r == Walk(der)
  {
    var outer :- ReadDerTlv(der, 0);
    if outer.tag != SEQUENCE { return Failure(NotSequence); }
    var tbs :- ReadDerTlv(der, outer.valueStart);
    if tbs.tag != SEQUENCE { return Failure(NotSequence); }
    var sigAlg :- ReadDerTlv(der, tbs.valueEnd);
    var pos := tbs.valueStart;
    var field :- ReadDerTlv(der, pos);
    if field.tag == VERSION_TAG {
      pos := field.valueEnd;
      field :- ReadDerTlv(der, pos);
    }
    pos := field.valueEnd;
    field :- ReadDerTlv(der, pos);
    pos := field.valueEnd;
    var issuerStart := pos;
    field :- ReadDerTlv(der, pos);
    pos := field.valueEnd;
    var issuerEnd := pos;
    field :- ReadDerTlv(der, pos);
    pos := field.valueEnd;
    var subjectStart := pos;
    field :- ReadDerTlv(der, pos);
    pos := field.valueEnd;
    var subjectEnd := pos;
    field :- ReadDerTlv(der, pos);
    pos := field.valueEnd;
    var extensions :- ScanTrailing(der, pos, tbs.valueEnd);
    return Success(Layout(tbs.valueStart, tbs.valueEnd, sigAlg.valueEnd, issuerStart, issuerEnd,
                          subjectStart, subjectEnd, extensions));
  }

  method RewriteTbsAndResign(der: bytes, rawSubject: Option<bytes>, rawIssuer: Option<bytes>, blobs: seq<bytes>,
                             sign: Signer)
    returns (r: Result<bytes, DerError>)
    ensures r == Rewrite(der, rawSubject, rawIssuer, blobs, sign)
  {
    var _ :- ValidateSingleTlv(rawSubject);
    var _ :- ValidateSingleTlv(rawIssuer);
    var l :- WalkCertificate(der);

    var edits := [];
    if rawIssuer.Some? { edits := edits + [Edit(l.issuerStart, l.issuerEnd, rawIssuer.value)]; }
    if rawSubject.Some? { edits := edits + [Edit(l.subjectStart, l.subjectEnd, rawSubject.value)]; }
    assert edits == NameEdit(l.issuerStart, l.issuerEnd, rawIssuer) + NameEdit(l.subjectStart, l.subjectEnd, rawSubject);
    if blobs != [] {
      if l.extensions.None? { return Failure(NoExtensionsBlock); }
      var list :- ReadDerTlv(der, l.extensions.value.valueStart);
      if list.tag != SEQUENCE { return Failure(NotSequence); }
      var inner := Slice(der, list.valueStart, list.valueEnd) + Join(blobs);
      edits := edits + [Edit(l.extensions.value.start, l.extensions.value.valueEnd,
                             DerString(EXTENSIONS_TAG, DerString(SEQUENCE, inner)))];
    } else {
      assert edits + [] == edits;
    }

    edits := SortByStart(edits);
    var newValue := SpliceEdits(der, l.tbsStart, l.tbsEnd, edits);
    var newTbsTlv := DerString(SEQUENCE, newValue);
    var signatureTlv := DerString(BIT_STRING, [0] + sign(newTbsTlv));
    return Success(DerString(SEQUENCE, newTbsTlv + (Slice(der, l.tbsEnd, l.sigAlgEnd) + signatureTlv)));
  }

  /** The `pieces`/`cursor` loop. */
  method SpliceEdits(der: bytes, start: nat, end: nat, edits: seq<Edit>) returns (r: bytes)
    ensures r == ApplyEdits(der, start, end, edits)
  {
    var pieces: seq<bytes>, cursor := [], start;
    for i := 0 to |edits|
      invariant Join(pieces) + ApplyEdits(der, cursor, end, edits[i..]) == ApplyEdits(der, start, end, edits)
    {
      PiecesStep(pieces, der, cursor, end, edits[i..]);
      assert edits[i..][1..] == edits[i + 1..];
      pieces := pieces + [Slice(der, cursor, edits[i].start)] + [edits[i].replacement];
      cursor := edits[i].end;
    }
    JoinSnoc(pieces, Slice(der, cursor, end));
    r := Join(pieces + [Slice(der, cursor, end)]);
  }

  lemma PiecesStep(pieces: seq<bytes>, der: bytes, cursor: nat, end: nat, edits: seq<Edit>)
    requires edits != []
    ensures var e := edits[0];
            Join(pieces + [Slice(der, cursor, e.start)] + [e.replacement]) + ApplyEdits(der, e.end, end, edits[1..])
            == Join(pieces) + ApplyEdits(der, cursor, end, edits)
  {
    var kept, e := Slice(der, cursor, edits[0].start), edits[0];
    JoinSnoc(pieces, kept);
    JoinSnoc(pieces + [kept], e.replacement);
    var tail := ApplyEdits(der, e.end, end, edits[1..]);
    assert ApplyEdits(der, cursor, end, edits) == kept + (e.replacement + tail);
    hide Join, ApplyEdits, Slice;
    ConcatAssociates(Join(pieces), kept, e.replacement, tail);
  }
}
