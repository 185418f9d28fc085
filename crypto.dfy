/**
 * `CryptoHelper` (src/utils/crypto.ts): the envelope a trade travels in and the hash
 * that vouches for it.
 *
 * A field map is serialized to its canonical query string, sealed with AES-256-GCM under
 * the merchant key and IV, and framed as `hex(utf8(base64(ciphertext) ":::"
 * base64(tag)))`. The hash is the upper-case hex SHA-256 of `key ++ envelope ++ iv`.
 * The key and IV reach the primitives as their UTF-8 bytes, as Node's `createCipheriv`
 * reads a string key.
 */
module Crypto {
  import opened Wrappers
  import opened Utf8
  import opened JsString
  import opened JsValue
  import opened UrlEncoded
  import opened QueryCodec
  import opened Primitives
  import Hex
  import Base64

  const Separator: string := ":::"
  const FormatError: string := "Invalid encrypted data format"
  /** The message Node's `decipher.final()` throws when the tag does not authenticate. */
  const AuthError: string := "Unsupported state or unable to authenticate data"
  const DecryptPrefix: string := "Decryption failed: "

  /** Base 64 text never contains the separator's `:`. */
  lemma Base64HasNoColon(b: seq<byte>)
    ensures ':' !in Base64.Encode(b)
  {
    var s := Base64.Encode(b);
    forall i | 0 <= i < |s|
      ensures s[i] != ':'
    {
      assert Base64.IsEncodingChar(s[i]);
    }
  }

  /** Upper-casing lower-case hex digits does not change the bytes they spell. */
  lemma {:induction false} DecodeUpper(s: string)
    requires |s| % 2 == 0 && forall i :: 0 <= i < |s| ==> Hex.IsLowerHexDigit(s[i])
    ensures Hex.Decode(ToUpperAscii(s)) == Hex.Decode(s)
  {
    if s != [] {
      var u := ToUpperAscii(s);
      assert u[2..] == ToUpperAscii(s[2..]);
      assert Hex.IsHexDigit(u[0]) && Hex.DigitValue(u[0]) == Hex.DigitValue(s[0]);
      assert Hex.IsHexDigit(u[1]) && Hex.DigitValue(u[1]) == Hex.DigitValue(s[1]);
      DecodeUpper(s[2..]);
    }
  }

  class CryptoHelper {
    const merKey: string
    const merIV: string
    const aead: Aead
    const sha256: seq<byte> -> seq<byte>

    /** Key and IV are stored trimmed of surrounding white space. */
    constructor(merKey: string, merIV: string, aead: Aead, sha256: seq<byte> -> seq<byte>)
      ensures this.merKey == Trim(merKey) && this.merIV == Trim(merIV)
      ensures this.aead == aead && this.sha256 == sha256
    {
      this.merKey := Trim(merKey);
      this.merIV := Trim(merIV);
      this.aead := aead;
      this.sha256 := sha256;
    }

    /** AES-256-GCM under this helper's key and IV. */
    function Seal(plain: seq<byte>): (seq<byte>, seq<byte>) {
      aead.seal(Utf8.Encode(merKey), Utf8.Encode(merIV), plain)
    }

    function Open(ct: seq<byte>, tag: seq<byte>): Option<seq<byte>> {
      aead.open(Utf8.Encode(merKey), Utf8.Encode(merIV), ct, tag)
    }

    /** The envelope for a query string. */
    function Envelope(queryString: string): (hex: string)
      ensures forall i :: 0 <= i < |hex| ==> Hex.IsLowerHexDigit(hex[i])
      ensures |hex| >= 2 * |Separator|
    {
      var (ct, tag) := Seal(Utf8.Encode(queryString));
      Hex.Encode(Utf8.Encode(Base64.Encode(ct) + Separator + Base64.Encode(tag)))
    }

    /** The ciphertext and tag an envelope carries, or the message of the error that stops it. */
    function Frame(encryptedHex: string): (r: Result<(seq<byte>, seq<byte>), string>)
      ensures r.Ok? ==> IndexOf(Utf8.Decode(Hex.Decode(encryptedHex)), Separator) > 0
      ensures r.Err? ==> r.error == FormatError || r.error == AuthError
    {
      var combined := Utf8.Decode(Hex.Decode(encryptedHex));
      var pieces := Split(combined, Separator);
      if pieces[0] == "" || |pieces| < 2 || pieces[1] == "" then Err(FormatError)
      else
        match (Base64.Decode(pieces[0]), Base64.Decode(pieces[1]))
        case (Some(ct), Some(tag)) => Ok((ct, tag))
        case _ => Err(AuthError)
    }

    /** What decrypting an envelope gives: the decoded fields, or a prefixed error message. */
    function Opened(encryptedHex: string): (r: Result<Fields, string>)
      ensures r.Err? ==> DecryptPrefix <= r.error
    {
      match Frame(encryptedHex)
      case Err(e) => Err(DecryptPrefix + e)
      case Ok((ct, tag)) =>
        match Open(ct, tag)
        case None => Err(DecryptPrefix + AuthError)
        case Some(plain) =>
          match DecodeFields(Utf8.Decode(plain))
          case Err(e) => Err(DecryptPrefix + e)
          case Ok(fields) => Ok(fields)
    }

    /** `generateHash(s)`. */
    function GenerateHash(encryptStr: string): (h: string)
      ensures |h| == 2 * |sha256(Utf8.Encode(merKey + encryptStr + merIV))|
      ensures forall i :: 0 <= i < |h| ==> '0' <= h[i] <= '9' || 'A' <= h[i] <= 'F'
      ensures Hex.Decode(h) == sha256(Utf8.Encode(merKey + encryptStr + merIV))
    {
      var digest := sha256(Utf8.Encode(merKey + encryptStr + merIV));
      DecodeUpper(Hex.Encode(digest));
      Hex.DecodeEncode(digest);
      ToUpperAscii(Hex.Encode(digest))
    }

    /** `verifyHash(s, hash)`. */
    predicate VerifyHash(encryptStr: string, hash: string): (ok: bool)
      ensures ok ==> |hash| == |GenerateHash(encryptStr)|
      ensures ok ==> forall i :: 0 <= i < |hash| ==> UpperAscii(hash[i]) == GenerateHash(encryptStr)[i]
    {
      GenerateHash(encryptStr) == ToUpperAscii(hash)
    }

    /** `objectToQueryString`: the loop over the sorted keys, then the placeholder rule. */
    method ObjectToQueryString(obj: JsObject) returns (s: string)
      ensures s == QueryString(obj)
    {
      var sortedKeys := CodeUnitOrder.Sort(KeysOf(obj));
      var params: seq<(string, string)> := [];
      for i := 0 to |sortedKeys|
        invariant params == PairsFor(obj, sortedKeys[..i])
      {
        var key := sortedKeys[i];
        var value := Get(obj, key);
        if value != Undefined && value != Null {
          params := params + [(key, ToJsString(value))];
        }
        assert sortedKeys[..i + 1][..i] == sortedKeys[..i];
      }
      assert sortedKeys[..|sortedKeys|] == sortedKeys;
      var result := Serialize(params);
      s := if result == "" then Placeholder else result;
    }

    /** `queryStringToObject`: the `forEach` over the parsed pairs. */
    method QueryStringToObject(queryString: string) returns (r: Result<Fields, string>)
      ensures r == DecodeFields(queryString)
    {
      var params := Parse(queryString);
      var result: Fields := map[];
      for i := 0 to |params|
        invariant Fold(params[..i]) == Ok(result)
      {
        var (key, value) := params[i];
        ghost var before := result;
        FoldNext(params, i, before);
        if key == "empty" && value == "1" {
          continue;
        }
        if '[' in key && ']' in key {
          var baseKey := key[..IndexOfChar(key, '[')];
          assert baseKey == BaseKey(key);
          StepArrayKey(before, key, value);
          if !TruthyAt(result, baseKey) {
            result := result[baseKey := List([])];
          }
          match result[baseKey]
          case Text(_) =>
            FoldErrorSticks(params, i + 1);
            return Err(PushError);
          case List(xs) =>
            result := result[baseKey := List(xs + [value])];
            assert result == before[baseKey := List(xs + [value])];
        } else {
          result := result[key := Text(value)];
          assert Step(before, (key, value)) == Ok(result);
        }
      }
      assert params[..|params|] == params;
      return Ok(result);
    }

    /** `encrypt`: serialize, seal, frame. */
    method Encrypt(data: JsObject) returns (hex: string)
      ensures hex == Envelope(QueryString(data))
    {
      var queryString := ObjectToQueryString(data);
      var (ct, authTag) := Seal(Utf8.Encode(queryString));
      var encrypted := Base64.Encode(ct);
      var combined := encrypted + Separator + Base64.Encode(authTag);
      hex := Hex.Encode(Utf8.Encode(combined));
    }

    /** `decrypt`: unframe, open, parse; every failure prefixed as the `catch` does. */
    method Decrypt(encryptedHex: string) returns (r: Result<Fields, string>)
      ensures r == Opened(encryptedHex)
    {
      var combined := Utf8.Decode(Hex.Decode(encryptedHex));
      var pieces := Split(combined, Separator);
      if pieces[0] == "" || |pieces| < 2 || pieces[1] == "" {
        return Err(DecryptPrefix + FormatError);
      }
      var encryptedBase64, authTagBase64 := pieces[0], pieces[1];
      var authTag := Base64.Decode(authTagBase64);
      var ct := Base64.Decode(encryptedBase64);
      if authTag.None? || ct.None? {
        return Err(DecryptPrefix + AuthError);
      }
      var plain := Open(ct.value, authTag.value);
      if plain.None? {
        return Err(DecryptPrefix + AuthError);
      }
      var decrypted := Utf8.Decode(plain.value);
      var fields := QueryStringToObject(decrypted);
      match fields
      case Err(e) => return Err(DecryptPrefix + e);
      case Ok(m) => return Ok(m);
    }
  }

  // Envelope

  /** Hex of UTF-8 read back as text gives the text. */
  lemma UnhexText(s: string)
    ensures Utf8.Decode(Hex.Decode(Hex.Encode(Utf8.Encode(s)))) == s
  {
    Hex.DecodeEncode(Utf8.Encode(s));
    Utf8.DecodeEncode(s);
  }

  /** Two pieces free of `:` joined by the separator split back into the two pieces. */
  lemma SplitFrame(a: string, b: string)
    requires ':' !in a && ':' !in b
    ensures Split(a + Separator + b, Separator) == [a, b]
  {
    SplitAfterClean(a, Separator, b);
    SplitClean(b, Separator);
  }

  /** The base 64 pieces of a sealed non-empty plaintext are both non-empty. */
  lemma SealedPiecesNonEmpty(c: CryptoHelper, plain: seq<byte>)
    requires IsGcm(c.aead) && plain != []
    ensures Base64.Encode(c.Seal(plain).0) != "" && Base64.Encode(c.Seal(plain).1) != ""
  {
    assert |c.Seal(plain).0| == |plain|;
    assert |c.Seal(plain).1| == TagLength;
  }

  /** Hex whose text is two `:`-free non-empty pieces around the separator frames those pieces. */
  lemma FramePieces(c: CryptoHelper, encryptedHex: string, a: string, b: string)
    requires Utf8.Decode(Hex.Decode(encryptedHex)) == a + Separator + b
    requires ':' !in a && ':' !in b && a != "" && b != ""
    ensures c.Frame(encryptedHex) ==
      match (Base64.Decode(a), Base64.Decode(b))
      case (Some(ct), Some(tag)) => Ok((ct, tag))
      case _ => Err(AuthError)
  {
    SplitFrame(a, b);
  }

  /** An envelope splits back into the ciphertext and the tag that sealing gave. */
  lemma FrameEnvelope(c: CryptoHelper, queryString: string)
    requires IsGcm(c.aead) && queryString != ""
    ensures c.Frame(c.Envelope(queryString)) == Ok(c.Seal(Utf8.Encode(queryString)))
  {
    var plain := Utf8.Encode(queryString);
    var sealed := c.Seal(plain);
    var a, b := Base64.Encode(sealed.0), Base64.Encode(sealed.1);
    var combined := a + Separator + b;
    assert c.Envelope(queryString) == Hex.Encode(Utf8.Encode(combined));
    UnhexText(combined);
    Base64HasNoColon(sealed.0);
    Base64HasNoColon(sealed.1);
    SealedPiecesNonEmpty(c, plain);
    Base64.DecodeEncode(sealed.0);
    Base64.DecodeEncode(sealed.1);
    FramePieces(c, c.Envelope(queryString), a, b);
  }

  /**
   * Decrypting the envelope of a non-empty query string gives what decoding that query
   * string gives, with a decoding error prefixed as any other.
   */
  lemma OpenEnvelope(c: CryptoHelper, queryString: string)
    requires IsGcm(c.aead) && queryString != ""
    ensures c.Opened(c.Envelope(queryString)) ==
      match DecodeFields(queryString)
      case Ok(fields) => Ok(fields)
      case Err(e) => Err(DecryptPrefix + e)
  {
    var plain := Utf8.Encode(queryString);
    assert |plain| >= |queryString| > 0;
    FrameEnvelope(c, queryString);
    Utf8.DecodeEncode(queryString);
  }

  /**
   * `decrypt(encrypt(m))` is `m` with `null` and `undefined` fields dropped and every
   * other value as its string, for a map without `name[...]` keys and without an
   * `empty` field printing as "1".
   */
  lemma DecryptEncrypt(c: CryptoHelper, data: JsObject)
    requires IsGcm(c.aead)
    requires forall i :: 0 <= i < |data| && Kept(data[i].1) ==> !IsArrayKey(data[i].0)
    requires !(Kept(Get(data, "empty")) && ToJsString(Get(data, "empty")) == "1")
    ensures c.Opened(c.Envelope(QueryString(data))) == Ok(ExpectedOn(data, KeysOf(data)))
  {
    OpenEnvelope(c, QueryString(data));
    RoundTrip(data);
  }

  /** The empty object survives the trip as the empty object. */
  lemma DecryptEncryptEmpty(c: CryptoHelper)
    requires IsGcm(c.aead)
    ensures c.Opened(c.Envelope(QueryString([]))) == Ok(map[])
  {
    var empty: JsObject := [];
    assert Get(empty, "empty") == Undefined;
    DecryptEncrypt(c, empty);
    assert ExpectedOn(empty, KeysOf(empty)) == map[];
  }

  /**
   * Only an authentic envelope decrypts: when decryption succeeds, the envelope carries
   * the ciphertext that sealing some plaintext gives and a tag the decipher accepts for
   * it (the sealed tag or an accepted prefix of it), and the fields are that plaintext
   * decoded.
   */
  lemma OpenedIsAuthentic(c: CryptoHelper, encryptedHex: string)
    requires IsGcm(c.aead) && c.Opened(encryptedHex).Ok?
    ensures c.Frame(encryptedHex).Ok?
    ensures exists plain ::
      (c.Seal(plain).0 == c.Frame(encryptedHex).value.0
       && TagMatches(c.Frame(encryptedHex).value.1, c.Seal(plain).1)
       && DecodeFields(Utf8.Decode(plain)) == c.Opened(encryptedHex))
  {
    var (ct, tag) := c.Frame(encryptedHex).value;
    var plain := c.Open(ct, tag).value;
    assert c.Seal(plain).0 == ct && TagMatches(tag, c.Seal(plain).1);
  }

  /**
   * An envelope whose tag is cut to an accepted length (4, 8, or 12 to 16 bytes) still
   * decrypts to what the full envelope gives.
   */
  lemma TruncatedTagOpens(c: CryptoHelper, queryString: string, n: nat)
    requires IsGcm(c.aead) && queryString != "" && n in AcceptedTagLengths
    ensures
      var sealed := c.Seal(Utf8.Encode(queryString));
      var short := Base64.Encode(sealed.0) + Separator + Base64.Encode(sealed.1[..n]);
      c.Opened(Hex.Encode(Utf8.Encode(short))) == c.Opened(c.Envelope(queryString))
  {
    var plain := Utf8.Encode(queryString);
    var sealed := c.Seal(plain);
    assert |plain| >= |queryString| > 0;
    assert |sealed.0| == |plain| && |sealed.1| == TagLength;
    var tag := sealed.1[..n];
    var a, b := Base64.Encode(sealed.0), Base64.Encode(tag);
    var hex := Hex.Encode(Utf8.Encode(a + Separator + b));
    UnhexText(a + Separator + b);
    Base64HasNoColon(sealed.0);
    Base64HasNoColon(tag);
    Base64.DecodeEncode(sealed.0);
    Base64.DecodeEncode(tag);
    FramePieces(c, hex, a, b);
    assert c.Frame(hex) == Ok((sealed.0, tag));
    assert TagMatches(tag, sealed.1);
    assert c.Open(sealed.0, tag) == Some(plain);
    FrameEnvelope(c, queryString);
    OpenSealed(c.aead, Utf8.Encode(c.merKey), Utf8.Encode(c.merIV), plain);
  }

  /** Hex whose text holds no `:::` is refused as malformed, whatever else it holds. */
  lemma NoSeparatorEnvelope(c: CryptoHelper, encryptedHex: string)
    requires IndexOf(Utf8.Decode(Hex.Decode(encryptedHex)), Separator) < 0
    ensures c.Opened(encryptedHex) == Err(DecryptPrefix + FormatError)
  {
  }

  /**
   * Hex whose text has the separator but an empty piece on either side of its first
   * occurrence (`":::abc"`, `"abc:::"`, `":::"`) is refused as malformed.
   */
  lemma EmptyPieceEnvelope(c: CryptoHelper, encryptedHex: string)
    requires
      var pieces := Split(Utf8.Decode(Hex.Decode(encryptedHex)), Separator);
      |pieces| >= 2 && (pieces[0] == "" || pieces[1] == "")
    ensures c.Opened(encryptedHex) == Err(DecryptPrefix + FormatError)
  {
  }

  /** Text that starts with the separator has an empty first piece. */
  lemma {:induction false} LeadingSeparator(text: string)
    requires Separator <= text
    ensures |Split(text, Separator)| >= 2 && Split(text, Separator)[0] == ""
  {
    assert OccursAt(text, Separator, 0) by {
      assert text[..|Separator|] == Separator;
    }
    assert IndexOf(text, Separator) == 0;
  }

  /** Text that ends with its only `:::`, after a `:`-free prefix, has an empty second piece. */
  lemma TrailingSeparator(a: string)
    requires ':' !in a
    ensures |Split(a + Separator, Separator)| >= 2 && Split(a + Separator, Separator)[1] == ""
  {
    SplitAfterClean(a, Separator, "");
    assert a + Separator + "" == a + Separator;
    assert Split("", Separator) == [""];
  }

  /** Text without `:` holds no `:::`. */
  lemma NoColonNoSeparator(text: string)
    requires ':' !in text
    ensures IndexOf(text, Separator) < 0
  {
    NoOccurrenceAnywhere(text, Separator);
  }

  /** The hex of any text without `:` (the hex of "Hello", say) is refused as malformed. */
  lemma MalformedEnvelope(c: CryptoHelper, text: string)
    requires ':' !in text
    ensures c.Opened(Hex.Encode(Utf8.Encode(text))) == Err(DecryptPrefix + FormatError)
  {
    UnhexText(text);
    NoColonNoSeparator(text);
    NoSeparatorEnvelope(c, Hex.Encode(Utf8.Encode(text)));
  }

  /**
   * The hex of text that starts with the separator, or that ends with its only
   * separator, is refused as malformed.
   */
  lemma EmptyPieceText(c: CryptoHelper, a: string)
    requires ':' !in a
    ensures c.Opened(Hex.Encode(Utf8.Encode(Separator + a))) == Err(DecryptPrefix + FormatError)
    ensures c.Opened(Hex.Encode(Utf8.Encode(a + Separator))) == Err(DecryptPrefix + FormatError)
  {
    UnhexText(Separator + a);
    LeadingSeparator(Separator + a);
    EmptyPieceEnvelope(c, Hex.Encode(Utf8.Encode(Separator + a)));
    UnhexText(a + Separator);
    TrailingSeparator(a);
    EmptyPieceEnvelope(c, Hex.Encode(Utf8.Encode(a + Separator)));
  }

  /**
   * Text that does not start with two hex digits (`"invalid_hex_data"`, say) decodes to no
   * bytes at all, and is refused as malformed.
   */
  lemma NotHexEnvelope(c: CryptoHelper, encryptedHex: string)
    requires |encryptedHex| < 2 || !Hex.IsHexDigit(encryptedHex[0]) || !Hex.IsHexDigit(encryptedHex[1])
    ensures c.Opened(encryptedHex) == Err(DecryptPrefix + FormatError)
  {
    assert Hex.Decode(encryptedHex) == [];
    assert Utf8.Decode([]) == "";
    NoSeparatorEnvelope(c, encryptedHex);
  }

  // Hash

  /** The hash is 64 characters long. */
  lemma GenerateHashLength(c: CryptoHelper, encryptStr: string)
    requires IsSha256(c.sha256)
    ensures |c.GenerateHash(encryptStr)| == 64
  {
    assert |c.sha256(Utf8.Encode(c.merKey + encryptStr + c.merIV))| == 32;
  }

  /** The hash is 64 upper-case hex digits. */
  lemma GenerateHashShape(c: CryptoHelper, encryptStr: string)
    requires IsSha256(c.sha256)
    ensures |c.GenerateHash(encryptStr)| == 64
    ensures forall i :: 0 <= i < 64 ==>
      '0' <= c.GenerateHash(encryptStr)[i] <= '9' || 'A' <= c.GenerateHash(encryptStr)[i] <= 'F'
  {
    var digest := c.sha256(Utf8.Encode(c.merKey + encryptStr + c.merIV));
    var lower := Hex.Encode(digest);
    forall i | 0 <= i < 64
      ensures '0' <= c.GenerateHash(encryptStr)[i] <= '9' || 'A' <= c.GenerateHash(encryptStr)[i] <= 'F'
    {
      assert Hex.IsLowerHexDigit(lower[i]);
    }
  }

  /**
   * Verification ignores case: a hash verifies iff it has the generated hash's length
   * and each character is the generated one or its lower-case form.
   */
  lemma VerifyHashCaseInsensitive(c: CryptoHelper, encryptStr: string, hash: string)
    requires IsSha256(c.sha256)
    ensures c.VerifyHash(encryptStr, hash) <==>
      |hash| == 64 && forall i :: 0 <= i < 64 ==>
        hash[i] == c.GenerateHash(encryptStr)[i] || hash[i] == LowerAscii(c.GenerateHash(encryptStr)[i])
  {
    var g := c.GenerateHash(encryptStr);
    GenerateHashShape(c, encryptStr);
    if |hash| == 64 {
      forall i | 0 <= i < 64
        ensures UpperAscii(hash[i]) == g[i] <==> (hash[i] == g[i] || hash[i] == LowerAscii(g[i]))
      {
      }
      if forall i :: 0 <= i < 64 ==> UpperAscii(hash[i]) == g[i] {
        assert ToUpperAscii(hash) == g;
      }
    }
  }

  /** The generated hash, in either case, verifies. */
  lemma OwnHashVerifies(c: CryptoHelper, encryptStr: string)
    requires IsSha256(c.sha256)
    ensures c.VerifyHash(encryptStr, c.GenerateHash(encryptStr))
    ensures c.VerifyHash(encryptStr, ToLowerAscii(c.GenerateHash(encryptStr)))
  {
    VerifyHashCaseInsensitive(c, encryptStr, c.GenerateHash(encryptStr));
    VerifyHashCaseInsensitive(c, encryptStr, ToLowerAscii(c.GenerateHash(encryptStr)));
  }

  /** A hash of the wrong length never verifies. */
  lemma WrongLengthHashFails(c: CryptoHelper, encryptStr: string, hash: string)
    requires IsSha256(c.sha256) && |hash| != 64
    ensures !c.VerifyHash(encryptStr, hash)
  {
    GenerateHashShape(c, encryptStr);
  }
}
