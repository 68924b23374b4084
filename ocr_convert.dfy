/** `convertOCRResultToMessages` (src/lib/ocrProcessor.ts:258-277): one payment record
    per detected amount, in order. The current time (`new Date()`) is a parameter. */
module OcrConvert {
  import opened Wrappers
  import opened JsString
  import opened PaymentRecords
  import OcrExtract
  import OcrRecords

  /** `OCRResult`, without the display-only `imageUrl`. The confidence is the OCR
      engine's, from 0 to 100. */
  datatype OcrResult = OcrResult(text: string, confidence: real, sourceFilename: string, detectedAmounts: seq<Detection>)

  /** The sender every converted record gets unless the caller names another. */
  const DefaultOcrSender: string := "Receipt (OCR)"

  /** The content shown when a detection has no item. */
  const ReceiptItemPlaceholder: string := "[Receipt item]"

  /** `detection.item ? detection.item : '[Receipt item]'`: an absent item and an empty
      one are both falsy. */
  function ItemContent(item: Option<string>): string {
    if item.Some? && item.value != "" then item.value else ReceiptItemPlaceholder
  }

  /** The record made from one detection. */
  function DetectionMessage(r: OcrResult, sender: string, now: Instant, d: Detection): Message {
    Message(now, sender, ItemContent(d.item), d.amount, d.currency,
      Some(OcrFields("ocr", r.sourceFilename, r.confidence / 100.0, d.item)))
  }

  /** `convertOCRResultToMessages(ocrResult, sender)` at time `now`. */
  function ConvertOcrResultToMessages(r: OcrResult, sender: string, now: Instant): (ms: seq<Message>)
    ensures |ms| == |r.detectedAmounts|
    ensures r.detectedAmounts == [] ==> ms == []
    ensures forall k :: 0 <= k < |ms| ==>
      && ms[k].amount == r.detectedAmounts[k].amount
      && ms[k].currency == r.detectedAmounts[k].currency
      && ms[k].sender == sender
      && ms[k].timestamp == now
      && ms[k].ocr == Some(OcrFields("ocr", r.sourceFilename, r.confidence / 100.0, r.detectedAmounts[k].item))
  {
    seq(|r.detectedAmounts|, k requires 0 <= k < |r.detectedAmounts| => DetectionMessage(r, sender, now, r.detectedAmounts[k]))
  }

  /** The content of a converted record is never empty: it is the item when the
      detection has a non-empty one, and the placeholder otherwise. */
  lemma ContentNeverEmpty(r: OcrResult, sender: string, now: Instant, k: nat)
    requires k < |r.detectedAmounts|
    ensures ConvertOcrResultToMessages(r, sender, now)[k].content != ""
    ensures r.detectedAmounts[k].item.Some? && r.detectedAmounts[k].item.value != "" ==>
      ConvertOcrResultToMessages(r, sender, now)[k].content == r.detectedAmounts[k].item.value
    ensures r.detectedAmounts[k].item.None? || r.detectedAmounts[k].item.value == "" ==>
      ConvertOcrResultToMessages(r, sender, now)[k].content == ReceiptItemPlaceholder
  {
    assert ConvertOcrResultToMessages(r, sender, now)[k].content == ItemContent(r.detectedAmounts[k].item);
    assert ReceiptItemPlaceholder[0] == '[';
  }

  /** Each detection can be read back from its record: the record keeps its amount,
      currency and item, and only its text is dropped. */
  lemma DetectionsRecovered(r: OcrResult, sender: string, now: Instant)
    ensures var ms := ConvertOcrResultToMessages(r, sender, now);
      forall k :: 0 <= k < |ms| ==>
        ms[k].ocr.Some? && Detection(ms[k].amount, ms[k].currency, r.detectedAmounts[k].text, ms[k].ocr.value.item) == r.detectedAmounts[k]
  {
  }

  /** Records converted from the amounts extracted from an OCR text all have
      non-negative amounts; with the default sender they all say they come from a
      receipt. */
  lemma ConvertedAmountsNonNegative(text: string, confidence: real, filename: string, now: Instant)
    ensures var ms := ConvertOcrResultToMessages(OcrResult(text, confidence, filename, OcrExtract.PaymentInfo(text)), DefaultOcrSender, now);
      forall k :: 0 <= k < |ms| ==> ms[k].amount >= 0.0 && ms[k].sender == DefaultOcrSender
  {
    var ds := OcrExtract.PaymentInfo(text);
    forall k | 0 <= k < |ds| ensures ds[k].amount >= 0.0 {
      OcrRecords.PaymentInfoSound(text, ds[k]);
    }
  }
}
