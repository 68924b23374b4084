/** The currency registry and the payment record shared by the chat parser, the OCR
    converter and the invoice helpers (src/lib/parseChat.ts:4-24). */
module PaymentRecords {
  import opened Wrappers

  /** Every currency code a record can carry: the six codes of `SUPPORTED_CURRENCIES`
      and the six more that the OCR symbol table casts to `CurrencyCode`. */
  datatype Currency = ZAR | USD | EUR | GBP | AUD | INR | BRL | JPY | CNY | NGN | RUB | SAR

  /** The code string of a currency, which is also its key in every record. */
  function Code(c: Currency): (s: string)
    ensures |s| == 3
    ensures forall k :: 0 <= k < 3 ==> 'A' <= s[k] <= 'Z'
  {
    match c
    case ZAR => "ZAR" case USD => "USD" case EUR => "EUR" case GBP => "GBP"
    case AUD => "AUD" case INR => "INR" case BRL => "BRL" case JPY => "JPY"
    case CNY => "CNY" case NGN => "NGN" case RUB => "RUB" case SAR => "SAR"
  }

  /** Different currencies have different codes. */
  lemma CodeInjective(a: Currency, b: Currency)
    ensures Code(a) == Code(b) ==> a == b
  {
    if Code(a) == Code(b) {
      assert Code(a)[0] == Code(b)[0] && Code(a)[1] == Code(b)[1] && Code(a)[2] == Code(b)[2];
    }
  }

  datatype CurrencyInfo = CurrencyInfo(symbol: string, name: string)

  /** The keys of `SUPPORTED_CURRENCIES`, in declaration order, which is the order
      `Object.entries` lists them in. */
  const SupportedCurrencies: seq<Currency> := [ZAR, USD, EUR, GBP, AUD, INR]

  /** `SUPPORTED_CURRENCIES[code]`: `None` (undefined) for an unregistered code. */
  function Lookup(c: Currency): (r: Option<CurrencyInfo>)
    ensures r.Some? <==> c in SupportedCurrencies
    ensures r.Some? ==> |r.value.symbol| > 0
  {
    match c
    case ZAR => Some(CurrencyInfo("R", "South African Rand"))
    case USD => Some(CurrencyInfo("$", "US Dollar"))
    case EUR => Some(CurrencyInfo("\U{20AC}", "Euro"))
    case GBP => Some(CurrencyInfo("\U{00A3}", "British Pound"))
    case AUD => Some(CurrencyInfo("A$", "Australian Dollar"))
    case INR => Some(CurrencyInfo("\U{20B9}", "Indian Rupee"))
    case _ => None
  }

  /** An instant as `new Date(...)` yields it: milliseconds since the epoch, or an
      Invalid Date (whose `getTime()` is NaN). */
  datatype Instant = Time(ms: int) | InvalidDate

  /** The fields `convertOCRResultToMessages` adds to a record. */
  datatype OcrFields = OcrFields(source: string, imageFilename: string, confidence: real, item: Option<string>)

  /** `WhatsAppMessage`, with the extra OCR fields when the record comes from a receipt. */
  datatype Message = Message(
    timestamp: Instant,
    sender: string,
    content: string,
    amount: real,
    currency: Currency,
    ocr: Option<OcrFields>)

  /** One entry of an OCR result's `detectedAmounts`: the amount, its currency, the
      trimmed line it was read from, and the item name when one was inferred. */
  datatype Detection = Detection(amount: real, currency: Currency, text: string, item: Option<string>)
}
