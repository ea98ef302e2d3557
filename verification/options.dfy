/** The option checks of `cal_heatmap` and `add_value_label`
    (src/july/helpers.py): at most one of the value and date labels, and a
    value format of "int" or "decimal" whenever values are labelled. */
module Options {
  import opened Base

  /** The message `cal_heatmap` raises when both labels are requested; the
      f-string renders both flags, which are then True. */
  const BothLabelsMessage: string :=
    "Maximum one of 'value_label' and 'date_label' can be set as 'True'. Got: 'value_label'=True and'date_label'=True."

  /** The message `add_value_label` raises for an unknown format. */
  function FormatMessage(valueFormat: string): string {
    "Argument 'value_format' must be equal to either 'int' or 'float'. Got: " + valueFormat + "."
  }

  /** The choices `add_value_label` accepts. */
  predicate KnownFormat(valueFormat: string) {
    valueFormat == "int" || valueFormat == "decimal"
  }

  /** `add_value_label`'s choice of Python format string. */
  function ValueFormatSpec(valueFormat: string): (r: Result<string, Error>)
    ensures r.Success? <==> KnownFormat(valueFormat)
    ensures r.Failure? ==> r.error == ValueError(FormatMessage(valueFormat))
  {
    if valueFormat == "int" then Success("{:0.0f}")
    else if valueFormat == "decimal" then Success("{:0.1f}")
    else Failure(ValueError(FormatMessage(valueFormat)))
  }

  /** The format choice a format string stands for. */
  function FormatName(spec: string): Option<string> {
    if spec == "{:0.0f}" then Some("int")
    else if spec == "{:0.1f}" then Some("decimal")
    else None
  }

  /** Distinct choices get distinct format strings: the format string gives
      the choice back. */
  lemma ValueFormatSpecRoundTrip(valueFormat: string)
    requires KnownFormat(valueFormat)
    ensures FormatName(ValueFormatSpec(valueFormat).value) == Some(valueFormat)
  {
  }

  /** The checks `cal_heatmap` runs before drawing: the label clash first,
      then, only when values are labelled, the value format. On success it
      gives the format string of the value labels, if any. */
  function CheckOptions(valueLabel: bool, dateLabel: bool, valueFormat: string): (r: Result<Option<string>, Error>)
    ensures r.Success? ==> (r.value.Some? <==> valueLabel)
  {
    if valueLabel && dateLabel then Failure(ValueError(BothLabelsMessage))
    else if valueLabel then
      match ValueFormatSpec(valueFormat)
      case Failure(e) => Failure(e)
      case Success(spec) => Success(Some(spec))
    else Success(None)
  }

  /** The options are accepted exactly when at most one label is requested
      and a labelled value has a known format; the clash is reported first,
      whatever the format. */
  lemma CheckOptionsAccepts(valueLabel: bool, dateLabel: bool, valueFormat: string)
    ensures var r := CheckOptions(valueLabel, dateLabel, valueFormat);
      && (r.Success? <==> !(valueLabel && dateLabel) && (valueLabel ==> KnownFormat(valueFormat)))
      && (valueLabel && dateLabel ==> r == Failure(ValueError(BothLabelsMessage)))
      && (valueLabel && !dateLabel && !KnownFormat(valueFormat) ==> r == Failure(ValueError(FormatMessage(valueFormat))))
  {
  }

  /** Without value labels the format is never looked at: any format string
      gives the same outcome. */
  lemma FormatUnusedWithoutValueLabel(dateLabel: bool, f: string, g: string)
    ensures CheckOptions(false, dateLabel, f) == CheckOptions(false, dateLabel, g) == Success(None)
  {
  }
}
