/**
 * `PayuniApi` (src/PayuniApi.ts): the trade dispatcher. It validates a trade's fields
 * for the chosen mode, builds the encrypted and hashed parameters, and either hands them
 * back as the UPP payment form or posts them to the mode's endpoint; replies, whether to
 * a post or delivered later to the ReturnURL/NotifyURL, go through a status, hash-check,
 * decrypt decision.
 *
 * The HTTP transport is a function parameter from the request posted to the reply that
 * came back (or the message of the error the client raised); `JSON.parse` is a function
 * parameter that gives the parsed reply or the message of its syntax error.
 */
module Payuni {
  import opened Wrappers
  import opened JsString
  import opened JsValue
  import opened UrlEncoded
  import opened QueryCodec
  import opened Primitives
  import opened Types
  import opened Crypto
  import Hex
  import Base64
  import Utf8

  /** `URL_MAPPING`: the endpoint path of each mode, relative to the API's base URL. */
  const UrlMapping: map<string, string> := map[
    "upp" := "upp",
    "atm" := "atm",
    "cvs" := "cvs",
    "credit" := "credit",
    "linepay" := "linepay",
    "aftee_direct" := "aftee/direct",
    "trade_query" := "trade/query",
    "trade_close" := "trade/close",
    "trade_cancel" := "trade/cancel",
    "cancel_cvs" := "cancel/cvs",
    "credit_bind_query" := "credit_bind/query",
    "credit_bind_cancel" := "credit_bind/cancel",
    "trade_refund_icash" := "trade/common/refund/icash",
    "trade_refund_aftee" := "trade/common/refund/aftee",
    "trade_confirm_aftee" := "trade/common/confirm/aftee",
    "trade_refund_linepay" := "trade/common/refund/linepay"]

  /** The table's keys are exactly the sixteen mode names. */
  lemma UrlMappingKeys(s: string)
    ensures s in UrlMapping <==> ParseMode(s).Some?
  {
  }

  /** Every mode has its own endpoint: no path is empty and no two modes share one. */
  lemma UrlMappingEndpoints()
    ensures forall s :: s in UrlMapping ==> UrlMapping[s] != ""
    ensures forall s, t :: s in UrlMapping && t in UrlMapping && s != t ==> UrlMapping[s] != UrlMapping[t]
  {
  }

  // Field validation

  const Passed: string := "Validation passed"

  /** The modes that take payment, and the modes that act on an existing trade. */
  const PaymentModes: set<string> := {"upp", "atm", "cvs", "credit", "linepay", "aftee_direct"}
  const TradeNoModes: set<string> := {
    "trade_query", "trade_close", "trade_cancel", "cancel_cvs",
    "trade_confirm_aftee", "trade_refund_icash", "trade_refund_aftee", "trade_refund_linepay"}

  function Fail(message: string): ResultModel {
    ResultModel(false, Note(message))
  }

  /** A field is given: present and truthy (so `0`, `''`, `false` and `null` are missing). */
  predicate Given(info: EncryptInfo, field: string) {
    Truthy(Get(info, field))
  }

  /** `validateFields`: the checks in the order the source makes them; the first that fails is the result. */
  function ValidateFields(info: EncryptInfo, mode: string): (r: ResultModel)
    ensures r.message.Note? && (r.success <==> r.message.text == Passed)
    ensures !Given(info, "MerID") ==> r == Fail("MerID is required")
  {
    if !Given(info, "MerID") then Fail("MerID is required")
    else if !Given(info, "Timestamp") then Fail("Timestamp is required")
    else if mode in PaymentModes then
      if !Given(info, "MerTradeNo") then Fail("MerTradeNo is required for payment")
      else if !Given(info, "TradeAmt") then Fail("TradeAmt is required for payment")
      else if mode == "upp" && !Given(info, "ReturnURL") then Fail("ReturnURL is required for UPP")
      else if mode == "upp" && !Given(info, "NotifyURL") then Fail("NotifyURL is required for UPP")
      else if mode == "credit"
        && !(Given(info, "CardNo") && Given(info, "CardCVC") && Given(info, "CardExpired"))
        && !Given(info, "CreditHash")
      then Fail("Credit card information or CreditHash is required")
      else ResultModel(true, Note(Passed))
    else if mode in TradeNoModes then
      if !Given(info, "TradeNo") then Fail("TradeNo is required for this operation")
      else ResultModel(true, Note(Passed))
    else ResultModel(true, Note(Passed))
  }

  /** One rule of validation, as a table entry: a field that must be given, or the card rule. */
  datatype Requirement = Field(name: string, message: string) | CardOrHash

  predicate Met(info: EncryptInfo, q: Requirement) {
    match q
    case Field(name, _) => Given(info, name)
    case CardOrHash =>
      (Given(info, "CardNo") && Given(info, "CardCVC") && Given(info, "CardExpired"))
      || Given(info, "CreditHash")
  }

  function MessageOf(q: Requirement): string {
    match q
    case Field(_, message) => message
    case CardOrHash => "Credit card information or CreditHash is required"
  }

  const MerIdRule: Requirement := Field("MerID", "MerID is required")
  const TimestampRule: Requirement := Field("Timestamp", "Timestamp is required")
  const MerTradeNoRule: Requirement := Field("MerTradeNo", "MerTradeNo is required for payment")
  const TradeAmtRule: Requirement := Field("TradeAmt", "TradeAmt is required for payment")
  const ReturnUrlRule: Requirement := Field("ReturnURL", "ReturnURL is required for UPP")
  const NotifyUrlRule: Requirement := Field("NotifyURL", "NotifyURL is required for UPP")
  const TradeNoRule: Requirement := Field("TradeNo", "TradeNo is required for this operation")

  /** The rules of a payment mode beyond the two every mode has. */
  function PaymentRules(mode: string): seq<Requirement> {
    [MerTradeNoRule, TradeAmtRule]
    + (if mode == "upp" then [ReturnUrlRule, NotifyUrlRule] else [])
    + (if mode == "credit" then [CardOrHash] else [])
  }

  /** The rules a mode adds to the two every mode has. */
  function ModeRules(mode: string): seq<Requirement> {
    if mode in PaymentModes then PaymentRules(mode)
    else if mode in TradeNoModes then [TradeNoRule]
    else []
  }

  /** The rules of each mode, in the order they are checked. */
  function Requirements(mode: string): seq<Requirement> {
    [MerIdRule, TimestampRule] + ModeRules(mode)
  }

  /** The result of checking rules in order: the first broken rule's message, or a pass. */
  function FirstUnmet(info: EncryptInfo, qs: seq<Requirement>): ResultModel {
    if qs == [] then ResultModel(true, Note(Passed))
    else if !Met(info, qs[0]) then Fail(MessageOf(qs[0]))
    else FirstUnmet(info, qs[1..])
  }

  /** Checking rules in order passes exactly when every rule is met. */
  lemma {:induction false} FirstUnmetPasses(info: EncryptInfo, qs: seq<Requirement>)
    ensures FirstUnmet(info, qs).success <==> forall i :: 0 <= i < |qs| ==> Met(info, qs[i])
  {
    if qs != [] {
      FirstUnmetPasses(info, qs[1..]);
      assert forall i :: 1 <= i < |qs| ==> qs[i] == qs[1..][i - 1];
    }
  }

  /** A failure names the first broken rule: every rule before it is met. */
  lemma {:induction false} FirstUnmetNamesFirst(info: EncryptInfo, qs: seq<Requirement>)
    requires !FirstUnmet(info, qs).success
    ensures exists i ::
      (0 <= i < |qs| && !Met(info, qs[i])
       && (forall j :: 0 <= j < i ==> Met(info, qs[j]))
       && FirstUnmet(info, qs) == Fail(MessageOf(qs[i])))
  {
    if Met(info, qs[0]) {
      FirstUnmetNamesFirst(info, qs[1..]);
      var i :| 0 <= i < |qs[1..]| && !Met(info, qs[1..][i])
        && (forall j :: 0 <= j < i ==> Met(info, qs[1..][j]))
        && FirstUnmet(info, qs[1..]) == Fail(MessageOf(qs[1..][i]));
      assert forall j :: 1 <= j < i + 1 ==> qs[j] == qs[1..][j - 1];
      assert qs[i + 1] == qs[1..][i];
    } else {
      assert !Met(info, qs[0]);
    }
  }

  lemma FirstUnmetCons(info: EncryptInfo, q: Requirement, qs: seq<Requirement>)
    ensures FirstUnmet(info, [q] + qs) == if Met(info, q) then FirstUnmet(info, qs) else Fail(MessageOf(q))
  {
    assert ([q] + qs)[1..] == qs;
  }

  lemma PaymentByTable(info: EncryptInfo, mode: string)
    requires mode in PaymentModes && Given(info, "MerID") && Given(info, "Timestamp")
    ensures ValidateFields(info, mode) == FirstUnmet(info, PaymentRules(mode))
  {
    var tail := (if mode == "upp" then [ReturnUrlRule, NotifyUrlRule] else [])
      + (if mode == "credit" then [CardOrHash] else []);
    assert PaymentRules(mode) == [MerTradeNoRule] + ([TradeAmtRule] + tail);
    FirstUnmetCons(info, MerTradeNoRule, [TradeAmtRule] + tail);
    FirstUnmetCons(info, TradeAmtRule, tail);
    if mode == "upp" {
      assert tail == [ReturnUrlRule] + [NotifyUrlRule];
      FirstUnmetCons(info, ReturnUrlRule, [NotifyUrlRule]);
      FirstUnmetCons(info, NotifyUrlRule, []);
    } else if mode == "credit" {
      assert tail == [CardOrHash] + [];
      FirstUnmetCons(info, CardOrHash, []);
    } else {
      assert tail == [];
    }
  }

  /** The cascade of `validateFields` is the rule table of `Requirements`, checked in order. */
  lemma ValidateByTable(info: EncryptInfo, mode: string)
    ensures ValidateFields(info, mode) == FirstUnmet(info, Requirements(mode))
  {
    var extra := ModeRules(mode);
    assert Requirements(mode) == [MerIdRule] + ([TimestampRule] + extra);
    FirstUnmetCons(info, MerIdRule, [TimestampRule] + extra);
    FirstUnmetCons(info, TimestampRule, extra);
    if Given(info, "MerID") && Given(info, "Timestamp") {
      if mode in PaymentModes {
        PaymentByTable(info, mode);
      } else if mode in TradeNoModes {
        assert extra == [TradeNoRule] + [];
        FirstUnmetCons(info, TradeNoRule, []);
      }
    }
  }

  /** Validation passes exactly when every rule of the mode is met. */
  lemma ValidationPassesIff(info: EncryptInfo, mode: string)
    ensures ValidateFields(info, mode).success <==>
      forall i :: 0 <= i < |Requirements(mode)| ==> Met(info, Requirements(mode)[i])
  {
    ValidateByTable(info, mode);
    FirstUnmetPasses(info, Requirements(mode));
  }

  /**
   * A mode outside the table (and either `credit_bind_*` mode) asks only for `MerID` and
   * `Timestamp`: with both given, validation passes.
   */
  lemma OtherModesPass(info: EncryptInfo, mode: string)
    requires mode !in PaymentModes && mode !in TradeNoModes
    requires Given(info, "MerID") && Given(info, "Timestamp")
    ensures ValidateFields(info, mode) == ResultModel(true, Note(Passed))
  {
  }

  /** `TradeAmt` is tested for truthiness only: `0` is missing, a negative amount is given. */
  lemma TradeAmtTruthiness(info: EncryptInfo, mode: string)
    requires mode in PaymentModes && Given(info, "MerID") && Given(info, "Timestamp")
    requires Given(info, "MerTradeNo")
    ensures Get(info, "TradeAmt") == Num(0) ==>
      ValidateFields(info, mode) == Fail("TradeAmt is required for payment")
    ensures Get(info, "TradeAmt") == Num(-1) ==>
      ValidateFields(info, mode) != Fail("TradeAmt is required for payment")
  {
  }

  // Requests

  /** What the transport was asked to post: the full URL and the form-encoded body. */
  datatype Request = Request(url: string, body: string)

  /** What came back: the reply's data, or the message of the error the client raised. */
  datatype Reply = Delivered(response: ApiResponse) | Failed(message: string)

  /** The form fields posted, in the order the parameter object lists them. */
  function FormPairs(p: ParameterModel): (ps: seq<(string, string)>)
    ensures |ps| == 4 || |ps| == 5
    ensures ps[..4] == [("MerID", p.MerID), ("Version", p.Version),
                        ("EncryptInfo", p.EncryptInfo), ("HashInfo", p.HashInfo)]
    ensures |ps| == 5 <==> p.IsPlatForm.Some?
  {
    [("MerID", p.MerID), ("Version", p.Version), ("EncryptInfo", p.EncryptInfo), ("HashInfo", p.HashInfo)]
    + (match p.IsPlatForm case Some(x) => [("IsPlatForm", x)] case None => [])
  }

  /** `new URLSearchParams(params).toString()`. */
  function FormBody(p: ParameterModel): string {
    Serialize(FormPairs(p))
  }

  /** The body the gateway receives parses back into exactly the posted fields. */
  lemma FormBodyParses(p: ParameterModel)
    ensures Parse(FormBody(p)) == FormPairs(p)
  {
    ParseSerialize(FormPairs(p));
  }

  /** The version sent: `'1.0'` unless given, and LINE Pay's `'1.0'` raised to `'1.1'`. */
  function EffectiveVersion(mode: string, version: Option<string>): (v: string)
    ensures mode != "linepay" ==> v == (if version.Some? then version.value else "1.0")
    ensures mode == "linepay" && version.Some? && version.value != "1.0" ==> v == version.value
    ensures mode == "linepay" && (version.None? || version.value == "1.0") ==> v == "1.1"
  {
    var v := match version case Some(given) => given case None => "1.0";
    if mode == "linepay" && v == "1.0" then "1.1" else v
  }

  /** The `IsPlatForm` parameter: `String(x)` of a truthy input field, otherwise absent. */
  function PlatForm(info: EncryptInfo): (p: Option<string>)
    ensures p.Some? <==> Given(info, "IsPlatForm")
    ensures p.Some? ==> p.value == ToJsString(Get(info, "IsPlatForm")) && p.value != ""
  {
    if Given(info, "IsPlatForm") then
      ToJsStringEmpty(Get(info, "IsPlatForm"));
      Some(ToJsString(Get(info, "IsPlatForm")))
    else None
  }

  class PayuniApi {
    const merKey: string
    const merIV: string
    const apiUrl: string
    const cryptoHelper: CryptoHelper

    /** Key and IV are trimmed; `'t'` selects the sandbox host; the helper gets the same key and IV. */
    constructor(merKey: string, merIV: string, environment: string, aead: Aead,
                sha256: seq<Utf8.byte> -> seq<Utf8.byte>)
      ensures this.merKey == Trim(merKey) && this.merIV == Trim(merIV)
      ensures apiUrl == BaseUrl(environment)
      ensures cryptoHelper.merKey == this.merKey && cryptoHelper.merIV == this.merIV
      ensures cryptoHelper.aead == aead && cryptoHelper.sha256 == sha256
    {
      this.merKey := Trim(merKey);
      this.merIV := Trim(merIV);
      this.apiUrl := BaseUrl(environment);
      TrimIdempotent(merKey);
      TrimIdempotent(merIV);
      this.cryptoHelper := new CryptoHelper(Trim(merKey), Trim(merIV), aead, sha256);
    }

    /** The parameters `universalTrade` builds for a trade. */
    function RequestParams(info: EncryptInfo, mode: string, version: Option<string>): (p: ParameterModel)
      ensures p.EncryptInfo == cryptoHelper.Envelope(QueryString(info))
      ensures p.HashInfo == cryptoHelper.GenerateHash(p.EncryptInfo)
      ensures p.MerID == ToJsString(Get(info, "MerID")) && p.Version == EffectiveVersion(mode, version)
      ensures p.Status.None? && p.IsPlatForm == PlatForm(info)
    {
      var encrypted := cryptoHelper.Envelope(QueryString(info));
      ParameterModel(ToJsString(Get(info, "MerID")), EffectiveVersion(mode, version),
        encrypted, cryptoHelper.GenerateHash(encrypted), None, PlatForm(info))
    }

    /** `handleUppPayment`: success, carrying the form's target and its hidden fields. */
    function HandleUppPayment(params: ParameterModel, endpoint: string): (r: ResultModel)
      ensures r.success && r.message.PaymentForm?
      ensures r.message.action == apiUrl + endpoint && r.message.params == params
    {
      ResultModel(true, PaymentForm(apiUrl + endpoint, params))
    }

    /**
     * `universalTrade`. `sent` is the request handed to the transport, if any; the result
     * of a request that was sent is the transport's error or the interpreted reply.
     */
    method UniversalTrade(encryptInfo: EncryptInfo, mode: string, version: Option<string>,
                          transport: Request -> Reply)
      returns (r: ResultModel, sent: Option<Request>)
      ensures !ValidateFields(encryptInfo, mode).success ==>
        r == ValidateFields(encryptInfo, mode) && sent.None?
      ensures ValidateFields(encryptInfo, mode).success && mode !in UrlMapping ==>
        r == Fail("Invalid mode: " + mode) && sent.None?
      ensures ValidateFields(encryptInfo, mode).success && mode == "upp" ==>
        r == ResultModel(true,
               PaymentForm(apiUrl + UrlMapping[mode], RequestParams(encryptInfo, mode, version)))
        && sent.None?
      ensures ValidateFields(encryptInfo, mode).success && mode in UrlMapping && mode != "upp" ==>
        sent == Some(Request(apiUrl + UrlMapping[mode], FormBody(RequestParams(encryptInfo, mode, version))))
        && r == match transport(sent.value)
                case Failed(message) => Fail(message)
                case Delivered(response) => ProcessApiResponse(response)
    {
      var validationResult := ValidateFields(encryptInfo, mode);
      if !validationResult.success {
        return validationResult, None;
      }
      var ver := match version case Some(given) => given case None => "1.0";
      if mode == "linepay" && ver == "1.0" {
        ver := "1.1";
      }
      assert ver == EffectiveVersion(mode, version);
      var encryptedData := cryptoHelper.Encrypt(encryptInfo);
      var hashInfo := cryptoHelper.GenerateHash(encryptedData);
      var params :=
        ParameterModel(ToJsString(Get(encryptInfo, "MerID")), ver, encryptedData, hashInfo, None, None);
      if Given(encryptInfo, "IsPlatForm") {
        params := params.(IsPlatForm := Some(ToJsString(Get(encryptInfo, "IsPlatForm"))));
      }
      assert params.IsPlatForm == PlatForm(encryptInfo);
      assert params == RequestParams(encryptInfo, mode, version);
      if mode !in UrlMapping {
        return Fail("Invalid mode: " + mode), None;
      }
      var endpoint := UrlMapping[mode];
      if mode == "upp" {
        return HandleUppPayment(params, endpoint), None;
      }
      var request := Request(apiUrl + endpoint, FormBody(params));
      sent := Some(request);
      match transport(request)
      case Failed(message) => r := Fail(message);
      case Delivered(response) => r := ProcessApiResponse(response);
    }

    // Replies

    /** The reply carries an encrypted payload and its hash, both non-empty. */
    predicate Encrypted(data: ApiResponse) {
      Has(data.EncryptInfo) && Has(data.HashInfo)
    }

    predicate HashChecks(data: ApiResponse)
      requires Encrypted(data)
    {
      cryptoHelper.VerifyHash(data.EncryptInfo.value, data.HashInfo.value)
    }

    /** `processApiResponse`: status first, then the hash, then decryption. */
    function ProcessApiResponse(response: ApiResponse): (r: ResultModel)
      ensures r.success <==>
        response.Status != Some("ERROR") && response.Status != Some("API00003")
        && if Encrypted(response)
           then HashChecks(response) && cryptoHelper.Opened(response.EncryptInfo.value).Ok?
           else response.Status == Some("SUCCESS")
      ensures r.message.Decrypted? ==>
        Encrypted(response) && HashChecks(response)
        && cryptoHelper.Opened(response.EncryptInfo.value) == Ok(r.message.fields)
    {
      if response.Status == Some("ERROR") then Fail(OrElse(response.Message, "API error"))
      else if response.Status == Some("API00003") then Fail("Hash validation failed at server")
      else if Encrypted(response) then
        if !HashChecks(response) then Fail("Response hash validation failed")
        else
          match cryptoHelper.Opened(response.EncryptInfo.value)
          case Ok(fields) => ResultModel(true, Decrypted(fields))
          case Err(e) => Fail("Failed to decrypt response: " + e)
      else ResultModel(response.Status == Some("SUCCESS"), Raw(response))
    }

    /** `resultProcess`: parse a JSON text, then status, hash, decrypt as for a posted reply. */
    function ResultProcess(requestData: RequestData, parse: string -> Result<ApiResponse, string>)
      : (r: ResultModel)
      ensures r.success <==>
        match Received(requestData, parse)
        case Err(_) => false
        case Ok(data) =>
          data.Status != Some("ERROR") && Has(data.Status)
          && (Encrypted(data) ==> HashChecks(data) && cryptoHelper.Opened(data.EncryptInfo.value).Ok?)
      ensures r.message.Decrypted? ==>
        Received(requestData, parse).Ok? &&
        var data := Received(requestData, parse).value;
        Encrypted(data) && HashChecks(data)
        && cryptoHelper.Opened(data.EncryptInfo.value) == Ok(r.message.fields)
    {
      match Received(requestData, parse)
      case Err(e) => Fail(e)
      case Ok(data) =>
        if data.Status == Some("ERROR") || !Has(data.Status) then Fail(OrElse(data.Message, "Unknown error"))
        else if Encrypted(data) then
          if !HashChecks(data) then Fail("Hash validation failed")
          else
            match cryptoHelper.Opened(data.EncryptInfo.value)
            case Ok(fields) => ResultModel(true, Decrypted(fields))
            case Err(e) => Fail(DecryptPrefix + e)
        else ResultModel(true, Raw(data))
    }
  }

  /** What `resultProcess` is handed: a JSON text, or an already parsed object. */
  datatype RequestData = JsonText(json: string) | Object(data: ApiResponse)

  /** The reply `resultProcess` works on: the parsed text, or the object as given. */
  function Received(requestData: RequestData, parse: string -> Result<ApiResponse, string>)
    : Result<ApiResponse, string>
  {
    match requestData
    case JsonText(json) => parse(json)
    case Object(data) => Ok(data)
  }

  // Properties of requests

  /** The parameters sent carry a hash that the same merchant's helper verifies. */
  lemma RequestHashVerifies(api: PayuniApi, info: EncryptInfo, mode: string, version: Option<string>)
    requires IsSha256(api.cryptoHelper.sha256)
    ensures var p := api.RequestParams(info, mode, version);
      api.cryptoHelper.VerifyHash(p.EncryptInfo, p.HashInfo)
  {
    var p := api.RequestParams(info, mode, version);
    OwnHashVerifies(api.cryptoHelper, p.EncryptInfo);
  }

  /**
   * The `EncryptInfo` sent decrypts, under the same key and IV, to the trade's fields with
   * `null`/`undefined` dropped and every other value as its string.
   */
  lemma RequestDecrypts(api: PayuniApi, info: EncryptInfo, mode: string, version: Option<string>)
    requires IsGcm(api.cryptoHelper.aead)
    requires forall i :: 0 <= i < |info| && Kept(info[i].1) ==> !IsArrayKey(info[i].0)
    requires !(Kept(Get(info, "empty")) && ToJsString(Get(info, "empty")) == "1")
    ensures api.cryptoHelper.Opened(api.RequestParams(info, mode, version).EncryptInfo)
      == Ok(ExpectedOn(info, KeysOf(info)))
  {
    DecryptEncrypt(api.cryptoHelper, info);
  }

  // Properties of replies

  /**
   * A reply whose status lets it through and whose hash was made under the merchant's
   * key and IV is decrypted: it succeeds with the fields, or fails with the decryption
   * error.
   */
  lemma HashedReplyOpens(api: PayuniApi, response: ApiResponse)
    requires IsSha256(api.cryptoHelper.sha256)
    requires response.Status != Some("ERROR") && response.Status != Some("API00003")
    requires Has(response.EncryptInfo)
    requires response.HashInfo == Some(api.cryptoHelper.GenerateHash(response.EncryptInfo.value))
    ensures api.ProcessApiResponse(response) ==
      match api.cryptoHelper.Opened(response.EncryptInfo.value)
      case Ok(fields) => ResultModel(true, Decrypted(fields))
      case Err(e) => Fail("Failed to decrypt response: " + e)
  {
    var hex := response.EncryptInfo.value;
    GenerateHashLength(api.cryptoHelper, hex);
    assert api.Encrypted(response);
    OwnHashVerifies(api.cryptoHelper, hex);
    assert api.HashChecks(response);
  }

  /**
   * A reply built the way the gateway builds one (status other than `ERROR`/`API00003`,
   * payload encrypted and hashed under the merchant's key and IV) decodes to its fields.
   */
  lemma AuthenticReplyDecodes(api: PayuniApi, response: ApiResponse, fields: JsObject)
    requires IsGcm(api.cryptoHelper.aead) && IsSha256(api.cryptoHelper.sha256)
    requires forall i :: 0 <= i < |fields| && Kept(fields[i].1) ==> !IsArrayKey(fields[i].0)
    requires !(Kept(Get(fields, "empty")) && ToJsString(Get(fields, "empty")) == "1")
    requires response.Status != Some("ERROR") && response.Status != Some("API00003")
    requires response.EncryptInfo == Some(api.cryptoHelper.Envelope(QueryString(fields)))
    requires response.HashInfo == Some(api.cryptoHelper.GenerateHash(response.EncryptInfo.value))
    ensures api.ProcessApiResponse(response) ==
      ResultModel(true, Decrypted(ExpectedOn(fields, KeysOf(fields))))
  {
    HashedReplyOpens(api, response);
    DecryptEncrypt(api.cryptoHelper, fields);
  }

  /** A reply whose hash does not verify is refused before any decryption, whatever it carries. */
  lemma ForgedReplyRefused(api: PayuniApi, response: ApiResponse)
    requires response.Status != Some("ERROR") && response.Status != Some("API00003")
    requires api.Encrypted(response) && !api.HashChecks(response)
    ensures api.ProcessApiResponse(response) == Fail("Response hash validation failed")
  {
  }

  /** A hash of the wrong length is such a forgery. */
  lemma WrongLengthReplyRefused(api: PayuniApi, response: ApiResponse)
    requires IsSha256(api.cryptoHelper.sha256)
    requires response.Status != Some("ERROR") && response.Status != Some("API00003")
    requires api.Encrypted(response) && |response.HashInfo.value| != 64
    ensures api.ProcessApiResponse(response) == Fail("Response hash validation failed")
  {
    WrongLengthHashFails(api.cryptoHelper, response.EncryptInfo.value, response.HashInfo.value);
  }

  /**
   * A reply that decrypts was authentic: it carries the ciphertext that sealing some
   * plaintext gives and a tag the decipher accepts for it.
   */
  lemma DecryptedReplyIsAuthentic(api: PayuniApi, response: ApiResponse)
    requires IsGcm(api.cryptoHelper.aead)
    requires api.ProcessApiResponse(response).message.Decrypted?
    ensures exists plain ::
      (api.cryptoHelper.Seal(plain).0 == api.cryptoHelper.Frame(response.EncryptInfo.value).value.0
       && TagMatches(api.cryptoHelper.Frame(response.EncryptInfo.value).value.1,
                     api.cryptoHelper.Seal(plain).1)
       && DecodeFields(Utf8.Decode(plain)) == Ok(api.ProcessApiResponse(response).message.fields))
  {
    OpenedIsAuthentic(api.cryptoHelper, response.EncryptInfo.value);
  }

  /** `ERROR` wins over everything else a reply carries. */
  lemma ErrorStatusFirst(api: PayuniApi, response: ApiResponse)
    requires response.Status == Some("ERROR")
    ensures api.ProcessApiResponse(response) == Fail(OrElse(response.Message, "API error"))
  {
  }

  /** `API00003` reports that the gateway refused the request's hash, before anything else. */
  lemma ServerHashFailure(api: PayuniApi, response: ApiResponse)
    requires response.Status == Some("API00003")
    ensures api.ProcessApiResponse(response) == Fail("Hash validation failed at server")
  {
  }

  /** An unencrypted reply succeeds exactly when its status is `SUCCESS`, and comes back as it was. */
  lemma PlainReply(api: PayuniApi, response: ApiResponse)
    requires !api.Encrypted(response)
    requires response.Status != Some("ERROR") && response.Status != Some("API00003")
    ensures api.ProcessApiResponse(response) == ResultModel(response.Status == Some("SUCCESS"), Raw(response))
  {
  }

  /**
   * `resultProcess` prefixes a decryption error a second time: an authentically hashed
   * payload that does not decrypt reports "Decryption failed: Decryption failed: ...".
   */
  lemma ResultProcessDoublePrefix(
    api: PayuniApi, data: ApiResponse, parse: string -> Result<ApiResponse, string>)
    requires IsSha256(api.cryptoHelper.sha256)
    requires Has(data.Status) && data.Status != Some("ERROR") && Has(data.EncryptInfo)
    requires data.HashInfo == Some(api.cryptoHelper.GenerateHash(data.EncryptInfo.value))
    requires api.cryptoHelper.Opened(data.EncryptInfo.value).Err?
    ensures api.ResultProcess(Object(data), parse)
      == Fail(DecryptPrefix + api.cryptoHelper.Opened(data.EncryptInfo.value).error)
    ensures DecryptPrefix + DecryptPrefix <= api.ResultProcess(Object(data), parse).message.text
  {
    var hex := data.EncryptInfo.value;
    var e := api.cryptoHelper.Opened(hex).error;
    GenerateHashLength(api.cryptoHelper, hex);
    assert api.Encrypted(data);
    OwnHashVerifies(api.cryptoHelper, hex);
    assert api.HashChecks(data);
    assert Received(Object(data), parse) == Ok(data);
    assert (DecryptPrefix + e)[..2 * |DecryptPrefix|] == DecryptPrefix + DecryptPrefix;
  }

  /**
   * An authentically hashed callback payload whose text holds no `:::` fails with the
   * format error under the decryption prefix twice.
   */
  lemma ResultWithoutSeparator(
    api: PayuniApi, data: ApiResponse, parse: string -> Result<ApiResponse, string>)
    requires IsSha256(api.cryptoHelper.sha256)
    requires Has(data.Status) && data.Status != Some("ERROR") && Has(data.EncryptInfo)
    requires data.HashInfo == Some(api.cryptoHelper.GenerateHash(data.EncryptInfo.value))
    requires IndexOf(Utf8.Decode(Hex.Decode(data.EncryptInfo.value)), Separator) < 0
    ensures api.ResultProcess(Object(data), parse) == Fail(DecryptPrefix + (DecryptPrefix + FormatError))
  {
    NoSeparatorEnvelope(api.cryptoHelper, data.EncryptInfo.value);
    ResultProcessDoublePrefix(api, data, parse);
  }

  /** An `ERROR` status fails with the reply's message, or "Unknown error", before anything else. */
  lemma ResultErrorStatus(
    api: PayuniApi, data: ApiResponse, parse: string -> Result<ApiResponse, string>)
    requires data.Status == Some("ERROR")
    ensures api.ResultProcess(Object(data), parse) == Fail(OrElse(data.Message, "Unknown error"))
  {
  }

  /** A callback whose hash does not verify is refused before any decryption, whatever it carries. */
  lemma ForgedResultRefused(
    api: PayuniApi, data: ApiResponse, parse: string -> Result<ApiResponse, string>)
    requires Has(data.Status) && data.Status != Some("ERROR")
    requires api.Encrypted(data) && !api.HashChecks(data)
    ensures api.ResultProcess(Object(data), parse) == Fail("Hash validation failed")
  {
  }

  /** A text `JSON.parse` refuses fails with the parser's message. */
  lemma UnparsableResult(api: PayuniApi, json: string, parse: string -> Result<ApiResponse, string>)
    requires parse(json).Err?
    ensures api.ResultProcess(JsonText(json), parse) == Fail(parse(json).error)
  {
  }

  /** A reply without a status, or with an empty one, fails with its message or "Unknown error". */
  lemma ResultWithoutStatus(
    api: PayuniApi, data: ApiResponse, parse: string -> Result<ApiResponse, string>)
    requires !Has(data.Status)
    ensures api.ResultProcess(Object(data), parse) == Fail(OrElse(data.Message, "Unknown error"))
  {
  }

  /** An unencrypted notification with a status returns the data unchanged as success. */
  lemma PlainResult(
    api: PayuniApi, data: ApiResponse, parse: string -> Result<ApiResponse, string>)
    requires Has(data.Status) && data.Status != Some("ERROR") && !api.Encrypted(data)
    ensures api.ResultProcess(Object(data), parse) == ResultModel(true, Raw(data))
  {
  }
}
