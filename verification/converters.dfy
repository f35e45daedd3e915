/** The three value converters the views bind boolean columns through: to
    "Sí"/"No" text (the only one that converts back), to a stock status
    and to a status colour. */
module Converters {
  import opened Wrappers
  import opened Text

  /** What a binding hands a converter: a boolean, a string, or anything
      else (null included). */
  datatype Value = BoolValue(b: bool) | StringValue(s: string) | OtherValue

  /** The state a converter distinguishes: the boolean, or none for a value
      that is not one. */
  function StateOf(v: Value): Option<bool> {
    if v.BoolValue? then Some(v.b) else None
  }

  /** `ConvertBack` of the status and colour converters throws
      `NotImplementedException`. */
  datatype Unsupported = NotImplemented

  // ---------------------------------------------------------------------
  // BoolToTextConverter
  // ---------------------------------------------------------------------

  const Yes: string := "S\U{00ED}"
  const No: string := "No"
  const NotApplicable: string := "N/A"

  function TextConvert(v: Value): (r: string)
    ensures r == Yes <==> v == BoolValue(true)
    ensures r == No <==> v == BoolValue(false)
    ensures r == NotApplicable <==> !v.BoolValue?
  {
    if v.BoolValue? then (if v.b then Yes else No) else NotApplicable
  }

  /** `ConvertBack`: true exactly for a string equal to "Sí" ignoring case,
      which is "SÍ", "Sí", "sÍ" or "sí". */
  function TextConvertBack(v: Value): (r: bool)
    ensures r ==> v.StringValue?
    ensures v.StringValue? ==>
      (r <==> |v.s| == 2 && v.s[0] in "Ss" && v.s[1] in "\U{00CD}\U{00ED}")
  {
    match v
    case StringValue(s) => EqualsIgnoreCase(s, Yes)
    case _ => false
  }

  /** Converting a value to text and back gives true exactly for true:
      every boolean survives the round trip, and "N/A" reads back as
      false. */
  lemma TextRoundTrip(v: Value)
    ensures TextConvertBack(StringValue(TextConvert(v))) == (v == BoolValue(true))
    ensures v.BoolValue? ==> TextConvertBack(StringValue(TextConvert(v))) == v.b
  {
    var t := TextConvert(v);
    if v == BoolValue(true) {
      assert t == ['S', '\U{00ED}'];
    } else if v == BoolValue(false) {
      assert t == ['N', 'o'];
    } else {
      assert t == ['N', '/', 'A'];
    }
  }

  /** The text tells the three states apart. */
  lemma TextDistinguishesStates(v: Value, w: Value)
    ensures TextConvert(v) == TextConvert(w) <==> StateOf(v) == StateOf(w)
  {
  }

  // ---------------------------------------------------------------------
  // BoolToStatusConverter
  // ---------------------------------------------------------------------

  const Ok: string := "OK"
  const Pending: string := "PENDIENTE"

  function StatusConvert(v: Value): (r: string)
    ensures r == Ok <==> v == BoolValue(true)
    ensures r == Pending <==> v == BoolValue(false)
    ensures r == NotApplicable <==> !v.BoolValue?
  {
    if v.BoolValue? then (if v.b then Ok else Pending) else NotApplicable
  }

  /** `ConvertBack` always throws. */
  function StatusConvertBack(v: Value): (r: Result<Value, Unsupported>)
    ensures r.Failure?
  {
    Failure(NotImplemented)
  }

  /** The status tells the three states apart. */
  lemma StatusDistinguishesStates(v: Value, w: Value)
    ensures StatusConvert(v) == StatusConvert(w) <==> StateOf(v) == StateOf(w)
  {
  }

  // ---------------------------------------------------------------------
  // BoolToColorConverter
  // ---------------------------------------------------------------------

  /** A solid brush colour. */
  datatype Rgb = Rgb(r: int, g: int, b: int)

  const Green: Rgb := Rgb(22, 163, 74)
  const Red: Rgb := Rgb(220, 38, 38)
  const Gray: Rgb := Rgb(107, 114, 128)

  function ColorConvert(v: Value): (c: Rgb)
    ensures c == Green <==> v == BoolValue(true)
    ensures c == Red <==> v == BoolValue(false)
    ensures c == Gray <==> !v.BoolValue?
    ensures 0 <= c.r < 256 && 0 <= c.g < 256 && 0 <= c.b < 256
  {
    if v.BoolValue? then (if v.b then Green else Red) else Gray
  }

  /** `ConvertBack` always throws. */
  function ColorConvertBack(v: Value): (r: Result<Value, Unsupported>)
    ensures r.Failure?
  {
    Failure(NotImplemented)
  }

  /** The colour tells the three states apart. */
  lemma ColorDistinguishesStates(v: Value, w: Value)
    ensures ColorConvert(v) == ColorConvert(w) <==> StateOf(v) == StateOf(w)
  {
  }
}
