/**
 Signatures as text: `r`, `s` and possibly a recovery byte in one fixed layout of 64 or 65 bytes
 (section 3.4 of RFC 7518, section 3.2 of RFC 8812), encoded as base64url.
 */
module Jose {
  import opened Common
  import opened Encodings

  /** `r` and `s` in base16; the recovery parameter may be absent. */
  datatype Signature = Signature(r: string, s: string, recoveryParam: Option<nat>)

  datatype JoseError = BadHex | OutOfRange | NoRecoveryParam | BadText | WrongSize(length: nat)

  function Size(recoverable: bool): nat { if recoverable then 65 else 64 }

  /** The bytes after `r` is written at 0 and then `s` at 32 into zeroes, and the recovery byte last. */
  function Layout(r: seq<Byte>, s: seq<Byte>, recovery: Option<nat>): (bytes: seq<Byte>)
    ensures |bytes| == Size(recovery.Some?)
  {
    seq(Size(recovery.Some?), k requires 0 <= k < 65 =>
      if k == 64 && recovery.Some? then recovery.value % 256
      else if 32 <= k < 32 + |s| then s[k - 32]
      else if k < |r| then r[k]
      else 0)
  }

  /** What `ToJose` yields, failures in the order they are met. */
  function Encoded(sig: Signature, recoverable: bool): Result<string, JoseError> {
    var r, s := FromHex(sig.r), FromHex(sig.s);
    if r.None? then Err(BadHex)
    else if |r.value| > Size(recoverable) then Err(OutOfRange)
    else if s.None? then Err(BadHex)
    else if 32 + |s.value| > Size(recoverable) then Err(OutOfRange)
    else if recoverable && sig.recoveryParam.None? then Err(NoRecoveryParam)
    else Ok(ToBase64url(Layout(r.value, s.value, if recoverable then sig.recoveryParam else None)))
  }

  /** Copies bytes into the array from an offset on. */
  method Set(a: array<Byte>, bytes: seq<Byte>, offset: nat)
    requires offset + |bytes| <= a.Length
    modifies a
    ensures forall k :: 0 <= k < a.Length ==>
      a[k] == if offset <= k < offset + |bytes| then bytes[k - offset] else old(a[k])
  {
    for i := 0 to |bytes|
      invariant forall k :: 0 <= k < a.Length ==> a[k] == if offset <= k < offset + i then bytes[k - offset] else old(a[k])
    {
      a[offset + i] := bytes[i];
    }
  }

  method ToJose(sig: Signature, recoverable: bool) returns (text: Result<string, JoseError>)
    ensures text == Encoded(sig, recoverable)
  {
    var jose := new Byte[Size(recoverable)](_ => 0);
    var r := FromHex(sig.r);
    if r.None? {
      return Err(BadHex);
    }
    if |r.value| > jose.Length {
      return Err(OutOfRange);
    }
    Set(jose, r.value, 0);
    var s := FromHex(sig.s);
    if s.None? {
      return Err(BadHex);
    }
    if 32 + |s.value| > jose.Length {
      return Err(OutOfRange);
    }
    Set(jose, s.value, 32);
    if recoverable {
      if sig.recoveryParam.None? {
        return Err(NoRecoveryParam);
      }
      jose[64] := sig.recoveryParam.value % 256;
    }
    assert jose[..] == Layout(r.value, s.value, if recoverable then sig.recoveryParam else None);
    text := Ok(ToBase64url(jose[..]));
  }

  function FromJose(text: string): Result<Signature, JoseError> {
    var bytes := FromBase64url(text);
    if bytes.None? then Err(BadText)
    else
      var b := bytes.value;
      if |b| < 64 || |b| > 65 then Err(WrongSize(|b|))
      else Ok(Signature(ToHex(b[..32]), ToHex(b[32..64]), if |b| == 65 then Some(b[64]) else None))
  }

  /** Parsing accepts exactly the encodings of 64 or 65 bytes. */
  lemma ParsesIff(text: string)
    ensures FromJose(text).Ok? <==> exists bytes: seq<Byte> :: 64 <= |bytes| <= 65 && text == ToBase64url(bytes)
  {
    if FromJose(text).Ok? {
      Base64urlInverse(FromBase64url(text).value, text);
    }
    if exists bytes: seq<Byte> :: 64 <= |bytes| <= 65 && text == ToBase64url(bytes) {
      var bytes: seq<Byte> :| 64 <= |bytes| <= 65 && text == ToBase64url(bytes);
      Base64urlInverse(bytes, text);
    }
  }

  lemma LayoutHalves(r: seq<Byte>, s: seq<Byte>, recovery: Option<nat>)
    requires |r| == 32 && |s| == 32
    ensures Layout(r, s, recovery)[..32] == r && Layout(r, s, recovery)[32..64] == s
  {
  }

  /** Reading back the two halves of a layout gives the text they came from exactly when both are
      32 bytes long. */
  lemma HalvesReadBackIff(r: string, s: string, recovery: Option<nat>)
    requires FromHex(r).Some? && FromHex(s).Some?
    ensures var b := Layout(FromHex(r).value, FromHex(s).value, recovery);
      ToHex(b[..32]) == r && ToHex(b[32..64]) == s <==> |r| == 64 && |s| == 64
  {
    var b := Layout(FromHex(r).value, FromHex(s).value, recovery);
    HexBack(r);
    HexBack(s);
    HexLength(b[..32]);
    HexLength(b[32..64]);
    if |r| == 64 && |s| == 64 {
      LayoutHalves(FromHex(r).value, FromHex(s).value, recovery);
    }
  }

  lemma RecoveryByte(r: seq<Byte>, s: seq<Byte>, recovery: Option<nat>)
    ensures recovery.Some? ==> (Layout(r, s, recovery)[64] == recovery.value <==> recovery.value < 256)
  {
  }

  lemma ReadBack(b: seq<Byte>)
    requires 64 <= |b| <= 65
    ensures FromJose(ToBase64url(b)) ==
      Ok(Signature(ToHex(b[..32]), ToHex(b[32..64]), if |b| == 65 then Some(b[64]) else None))
  {
    Base64urlInverse(b, "");
  }

  /** Every signature that can be written is read back, and unchanged exactly when `r` and `s` are 32
      bytes long, the recovery parameter is a byte if it is written, and absent if it is not. */
  lemma WriteThenReadIff(sig: Signature, recoverable: bool)
    requires Encoded(sig, recoverable).Ok?
    ensures var back := FromJose(Encoded(sig, recoverable).value);
      && back.Ok?
      && (back.value == sig <==>
           |sig.r| == 64 && |sig.s| == 64 &&
           if recoverable then sig.recoveryParam.value < 256 else sig.recoveryParam.None?)
  {
    var recovery := if recoverable then sig.recoveryParam else None;
    var b := Layout(FromHex(sig.r).value, FromHex(sig.s).value, recovery);
    ReadBack(b);
    HalvesReadBackIff(sig.r, sig.s, recovery);
    RecoveryByte(FromHex(sig.r).value, FromHex(sig.s).value, recovery);
  }

  lemma LayoutOfParts(b: seq<Byte>)
    requires 64 <= |b| <= 65
    ensures Layout(b[..32], b[32..64], if |b| == 65 then Some(b[64]) else None) == b
  {
  }

  /** Every accepted text is reproduced from what was read, with a recovery byte when there was one. */
  lemma ReadThenWrite(text: string)
    requires FromJose(text).Ok?
    ensures var sig := FromJose(text).value; Encoded(sig, sig.recoveryParam.Some?) == Ok(text)
  {
    var b, sig := FromBase64url(text).value, FromJose(text).value;
    assert text == ToBase64url(b) by {
      Base64urlInverse(b, text);
    }
    assert FromHex(sig.r) == Some(b[..32]) by {
      HexThere(b[..32]);
    }
    assert FromHex(sig.s) == Some(b[32..64]) by {
      HexThere(b[32..64]);
    }
    LayoutOfParts(b);
  }

  // ---- The layout, in slices ----

  /** A sequence with some of its elements overwritten from an offset on. */
  function Over(a: seq<Byte>, bytes: seq<Byte>, offset: nat): seq<Byte>
    requires offset + |bytes| <= |a|
  {
    a[..offset] + bytes + a[offset + |bytes|..]
  }

  function Zeroes(n: nat): seq<Byte> { seq(n, _ => 0) }

  /** `r` is written at 0 into zeroes, and then `s` at 32. */
  function Halves(r: seq<Byte>, s: seq<Byte>, size: nat): seq<Byte>
    requires |r| <= size && 32 + |s| <= size
  {
    Over(Over(Zeroes(size), r, 0), s, 32)
  }

  lemma OverAt(a: seq<Byte>, bytes: seq<Byte>, offset: nat, k: nat)
    requires offset + |bytes| <= |a| && k < |a|
    ensures |Over(a, bytes, offset)| == |a|
    ensures Over(a, bytes, offset)[k] == if offset <= k < offset + |bytes| then bytes[k - offset] else a[k]
  {
  }

  lemma HalvesAt(r: seq<Byte>, s: seq<Byte>, size: nat, k: nat)
    requires |r| <= size && 32 + |s| <= size && k < size
    ensures |Halves(r, s, size)| == size
    ensures Halves(r, s, size)[k] == if 32 <= k < 32 + |s| then s[k - 32] else if k < |r| then r[k] else 0
  {
    OverAt(Zeroes(size), r, 0, k);
    OverAt(Over(Zeroes(size), r, 0), s, 32, k);
  }

  lemma LayoutIs(r: seq<Byte>, s: seq<Byte>, recovery: Option<nat>)
    requires |r| <= Size(recovery.Some?) && 32 + |s| <= Size(recovery.Some?)
    ensures var halves := Halves(r, s, Size(recovery.Some?));
      |halves| == Size(recovery.Some?) &&
      Layout(r, s, recovery) == if recovery.Some? then Over(halves, [recovery.value % 256], 64) else halves
  {
    HalvesAt(r, s, Size(recovery.Some?), 0);
    forall k | 0 <= k < Size(recovery.Some?)
      ensures Halves(r, s, Size(recovery.Some?))[k] == if 32 <= k < 32 + |s| then s[k - 32] else if k < |r| then r[k] else 0
    {
      HalvesAt(r, s, Size(recovery.Some?), k);
    }
  }

  /** The bytes of `r` are written at 0 into 64 or 65 zeroes, then those of `s` at 32, then the recovery
      parameter, reduced to a byte, at 64. */
  lemma EncodedIs(sig: Signature, recoverable: bool)
    requires FromHex(sig.r).Some? && FromHex(sig.s).Some?
    ensures var r, s, size := FromHex(sig.r).value, FromHex(sig.s).value, if recoverable then 65 else 64;
      if |r| > size || 32 + |s| > size then Encoded(sig, recoverable) == Err(OutOfRange)
      else if recoverable && sig.recoveryParam.None? then Encoded(sig, recoverable) == Err(NoRecoveryParam)
      else
        var halves := Halves(r, s, size);
        |halves| == size &&
        Encoded(sig, recoverable) ==
          Ok(ToBase64url(if recoverable then Over(halves, [sig.recoveryParam.value % 256], 64) else halves))
  {
    var r, s, recovery := FromHex(sig.r).value, FromHex(sig.s).value, if recoverable then sig.recoveryParam else None;
    if |r| <= Size(recoverable) && 32 + |s| <= Size(recoverable) && (recoverable ==> sig.recoveryParam.Some?) {
      LayoutIs(r, s, recovery);
    }
  }

  /** A signature whose halves are 32 bytes is written as one half after the other, with the recovery byte
      last. */
  lemma EncodedIsConcat(sig: Signature)
    requires FromHex(sig.r).Some? && FromHex(sig.s).Some? && |sig.r| == 64 && |sig.s| == 64
    ensures var r, s := FromHex(sig.r).value, FromHex(sig.s).value;
      && Encoded(sig, false) == Ok(ToBase64url(r + s))
      && (sig.recoveryParam.Some? ==> Encoded(sig, true) == Ok(ToBase64url(r + s + [sig.recoveryParam.value % 256])))
  {
    var r, s := FromHex(sig.r).value, FromHex(sig.s).value;
    HexBack(sig.r);
    HexBack(sig.s);
    assert Layout(r, s, None) == r + s;
    if sig.recoveryParam.Some? {
      assert Layout(r, s, sig.recoveryParam) == r + s + [sig.recoveryParam.value % 256];
    }
  }

  /** A half that is not base16 is refused, the first one first. */
  lemma BadHexIff(sig: Signature, recoverable: bool)
    ensures Encoded(sig, recoverable) == Err(BadHex) <==>
      FromHex(sig.r).None? ||
      (FromHex(sig.s).None? && |FromHex(sig.r).value| <= (if recoverable then 65 else 64))
  {
  }

  /** Texts of other sizes are refused with their size, texts that are not base64url as such. */
  lemma RefusalsAre(text: string)
    ensures FromJose(text) == Err(BadText) <==> FromBase64url(text).None?
    ensures forall bytes :: FromBase64url(text) == Some(bytes) && !(64 <= |bytes| <= 65) ==>
      FromJose(text) == Err(WrongSize(|bytes|))
  {
  }
}
