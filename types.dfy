/**
 * The SDK's public types (src/types.ts): the sixteen payment modes, the trade fields a
 * caller sends, the parameters posted to the gateway, the gateway's reply and the
 * result every operation returns.
 */
module Types {
  import opened Wrappers
  import opened JsValue
  import QueryCodec

  /** `PaymentMode`: the closed union of the sixteen operations the gateway offers. */
  datatype PaymentMode =
    | Upp | Atm | Cvs | Credit | LinePay | AfteeDirect
    | TradeQuery | TradeClose | TradeCancel | CreditBindQuery | CreditBindCancel
    | CancelCvs | TradeConfirmAftee | TradeRefundIcash | TradeRefundAftee | TradeRefundLinePay

  /** The string literal of each member of the union. */
  function Name(m: PaymentMode): string {
    match m
    case Upp => "upp"
    case Atm => "atm"
    case Cvs => "cvs"
    case Credit => "credit"
    case LinePay => "linepay"
    case AfteeDirect => "aftee_direct"
    case TradeQuery => "trade_query"
    case TradeClose => "trade_close"
    case TradeCancel => "trade_cancel"
    case CreditBindQuery => "credit_bind_query"
    case CreditBindCancel => "credit_bind_cancel"
    case CancelCvs => "cancel_cvs"
    case TradeConfirmAftee => "trade_confirm_aftee"
    case TradeRefundIcash => "trade_refund_icash"
    case TradeRefundAftee => "trade_refund_aftee"
    case TradeRefundLinePay => "trade_refund_linepay"
  }

  /** The member a string names, if it names one. */
  function ParseMode(s: string): (m: Option<PaymentMode>)
    ensures m.Some? ==> Name(m.value) == s
  {
    if s == "upp" then Some(Upp)
    else if s == "atm" then Some(Atm)
    else if s == "cvs" then Some(Cvs)
    else if s == "credit" then Some(Credit)
    else if s == "linepay" then Some(LinePay)
    else if s == "aftee_direct" then Some(AfteeDirect)
    else if s == "trade_query" then Some(TradeQuery)
    else if s == "trade_close" then Some(TradeClose)
    else if s == "trade_cancel" then Some(TradeCancel)
    else if s == "credit_bind_query" then Some(CreditBindQuery)
    else if s == "credit_bind_cancel" then Some(CreditBindCancel)
    else if s == "cancel_cvs" then Some(CancelCvs)
    else if s == "trade_confirm_aftee" then Some(TradeConfirmAftee)
    else if s == "trade_refund_icash" then Some(TradeRefundIcash)
    else if s == "trade_refund_aftee" then Some(TradeRefundAftee)
    else if s == "trade_refund_linepay" then Some(TradeRefundLinePay)
    else None
  }

  /** Every member is recognised by its own name, so no two members share a name. */
  lemma ParseName(m: PaymentMode)
    ensures ParseMode(Name(m)) == Some(m)
  {
  }

  /** The members, in the order the union lists them. */
  const AllModes: seq<PaymentMode> := [
    Upp, Atm, Cvs, Credit, LinePay, AfteeDirect, TradeQuery, TradeClose, TradeCancel,
    CreditBindQuery, CreditBindCancel, CancelCvs, TradeConfirmAftee, TradeRefundIcash,
    TradeRefundAftee, TradeRefundLinePay]

  /** The union has exactly sixteen members, with sixteen different names. */
  lemma SixteenModes()
    ensures |AllModes| == 16 && forall m :: m in AllModes
    ensures forall i, j :: 0 <= i < j < |AllModes| ==> Name(AllModes[i]) != Name(AllModes[j])
  {
    forall m
      ensures m in AllModes
    {
      match m {
        case Upp => assert AllModes[0] == Upp;
        case Atm => assert AllModes[1] == Atm;
        case Cvs => assert AllModes[2] == Cvs;
        case Credit => assert AllModes[3] == Credit;
        case LinePay => assert AllModes[4] == LinePay;
        case AfteeDirect => assert AllModes[5] == AfteeDirect;
        case TradeQuery => assert AllModes[6] == TradeQuery;
        case TradeClose => assert AllModes[7] == TradeClose;
        case TradeCancel => assert AllModes[8] == TradeCancel;
        case CreditBindQuery => assert AllModes[9] == CreditBindQuery;
        case CreditBindCancel => assert AllModes[10] == CreditBindCancel;
        case CancelCvs => assert AllModes[11] == CancelCvs;
        case TradeConfirmAftee => assert AllModes[12] == TradeConfirmAftee;
        case TradeRefundIcash => assert AllModes[13] == TradeRefundIcash;
        case TradeRefundAftee => assert AllModes[14] == TradeRefundAftee;
        case TradeRefundLinePay => assert AllModes[15] == TradeRefundLinePay;
      }
    }
    forall i, j | 0 <= i < j < |AllModes|
      ensures Name(AllModes[i]) != Name(AllModes[j])
    {
      ParseName(AllModes[i]);
      ParseName(AllModes[j]);
    }
  }

  /** A string is a payment mode exactly when the parser recognises it. */
  lemma ModeNamesExactly(s: string)
    ensures ParseMode(s).Some? <==> exists m :: Name(m) == s
  {
    if exists m :: Name(m) == s {
      var m :| Name(m) == s;
      ParseName(m);
    }
  }

  /**
   * `EncryptInfo`: the trade fields, an open record. `MerID` and `Timestamp` are the
   * fields every operation needs; any other field is carried through as given.
   */
  type EncryptInfo = JsObject

  /** `ParameterModel`: what is posted to the gateway. */
  datatype ParameterModel = ParameterModel(
    MerID: string,
    Version: string,
    EncryptInfo: string,
    HashInfo: string,
    Status: Option<string>,
    IsPlatForm: Option<string>)

  /** `ApiResponse`: the gateway's reply, its string fields each present or absent. */
  datatype ApiResponse = ApiResponse(
    Status: Option<string>,
    Message: Option<string>,
    Version: Option<string>,
    EncryptInfo: Option<string>,
    HashInfo: Option<string>,
    Others: map<string, string>)

  /** A string field is truthy: present and not empty. */
  predicate Has(f: Option<string>) {
    f.Some? && f.value != ""
  }

  /** `f || fallback`. */
  function OrElse(f: Option<string>, fallback: string): string {
    if Has(f) then f.value else fallback
  }

  /** What a `ResultModel` carries in `message`. */
  datatype Payload =
    | Note(text: string)                                    // a status or error message
    | Decrypted(fields: QueryCodec.Fields)                  // a decrypted reply
    | Raw(response: ApiResponse)                            // a reply returned as it came
    | PaymentForm(action: string, params: ParameterModel)   // the auto-submitting UPP form

  /** `ResultModel`: the outcome of every operation. */
  datatype ResultModel = ResultModel(success: bool, message: Payload)

  /** The two gateway hosts `EnvironmentType` chooses between. */
  const SandboxUrl: string := "https://sandbox-api.payuni.com.tw/api/"
  const ProductionUrl: string := "https://api.payuni.com.tw/api/"

  /** `'t'` selects the sandbox; anything else, the default `''` included, production. */
  function BaseUrl(environment: string): (url: string)
    ensures url == SandboxUrl <==> environment == "t"
    ensures url == ProductionUrl <==> environment != "t"
  {
    if environment == "t" then SandboxUrl else ProductionUrl
  }
}
