/**
 The acceptance filter both serial loggers apply to every line the device
 sends, and the CSV row built from an accepted line.

 A raw line is first decoded as UTF-8 (an undecodable line is dropped), then
 stripped (a blank line is skipped), then split on commas; it is kept only if it
 has at least eight fields and its first field (the motor current) is accepted
 by Python's `float()`. A kept line becomes the row `[stamp] + fields`.
 */
module LineFilter {
  import opened Wrappers
  import Text
  import Timestamp

  /** Field separator of the device's lines. */
  const Delimiter: char := ','

  /** Current, three accelerations, three angular rates, frequency. */
  const MinFields: nat := 8

  /** The header row written once at the top of the log. */
  const Header: seq<string> := ["Time", "Current", "AcX", "AcY", "AcZ", "GyX", "GyY", "GyZ", "Freq"]

  /** The outcome of `readline().decode('utf-8')` on one raw line. */
  datatype RawLine = Undecodable | Decoded(text: string)

  /**
   The filter: the fields of an accepted line, or `None` for a line the loop
   discards. `isFloat` stands for "Python's `float()` accepts this string".
   */
  function Accept(line: RawLine, isFloat: string -> bool): (r: Option<seq<string>>)
    ensures line.Undecodable? ==> r.None?
    ensures line.Decoded? && Text.AllSpace(line.text) ==> r.None?
    ensures r.Some? ==> |r.value| >= MinFields && isFloat(r.value[0])
    ensures r.Some? ==> line.Decoded? && Text.Join(r.value, Delimiter) == Text.Strip(line.text)
    ensures r.Some? ==> forall k :: 0 <= k < |r.value| ==> Delimiter !in r.value[k]
  {
    match line
    case Undecodable => None
    case Decoded(text) =>
      var stripped := Text.Strip(text);
      if |stripped| == 0 then None
      else
        var parts := Text.Split(stripped, Delimiter);
        Text.JoinSplit(stripped, Delimiter);
        if |parts| >= MinFields && isFloat(parts[0]) then Some(parts) else None
  }

  /** A logged data row: a stamp of the form `HH:MM:SS.mmm` followed by at least eight fields. */
  predicate IsDataRow(row: seq<string>) {
    |row| >= 1 + MinFields && Timestamp.StampShape(row[0])
  }

  /** The row written for an accepted line: the stamp, then every field unchanged and in order. */
  function MakeRow(clock: Timestamp.Clock, parts: seq<string>): (row: seq<string>)
    requires Timestamp.ValidClock(clock)
    ensures |row| == 1 + |parts|
    ensures row[0] == Timestamp.FormatTime(clock) && row[1..] == parts
    ensures IsDataRow(row) <==> |parts| >= MinFields
    ensures row != Header
  {
    [Timestamp.FormatTime(clock)] + parts
  }

  /** A line with fewer than seven commas (so fewer than eight fields) produces no row. */
  lemma FewFieldsRejected(text: string, isFloat: string -> bool)
    requires Text.Count(Text.Strip(text), Delimiter) < MinFields - 1
    ensures Accept(Decoded(text), isFloat) == None
  {
    Text.SplitCount(Text.Strip(text), Delimiter);
  }

  /** A line whose text before the first comma is not a number produces no row. */
  lemma NonNumericRejected(text: string, isFloat: string -> bool)
    requires !isFloat(Text.Before(Text.Strip(text), Delimiter))
    ensures Accept(Decoded(text), isFloat) == None
  {
    Text.SplitFirst(Text.Strip(text), Delimiter);
  }

  /**
   The whole filter in terms of the text alone: a decoded line is accepted
   exactly when its stripped form is non-empty, holds at least seven commas and
   starts with a number, and then its fields are the comma-free pieces whose
   comma-join is the stripped line.
   */
  lemma AcceptExactly(text: string, isFloat: string -> bool, fields: seq<string>)
    requires |fields| >= 1 && forall k :: 0 <= k < |fields| ==> Delimiter !in fields[k]
    requires Text.Join(fields, Delimiter) == Text.Strip(text)
    ensures Accept(Decoded(text), isFloat) == Some(fields) <==>
      && |Text.Strip(text)| > 0
      && Text.Count(Text.Strip(text), Delimiter) >= MinFields - 1
      && isFloat(Text.Before(Text.Strip(text), Delimiter))
  {
    var stripped := Text.Strip(text);
    Text.SplitJoin(fields, Delimiter);
    Text.SplitCount(stripped, Delimiter);
    Text.SplitFirst(stripped, Delimiter);
  }

  /**
   A row built from an accepted line has the twelve-character stamp and then at
   least eight fields which, joined with commas, give back the stripped line.
   */
  lemma AcceptedRowShape(line: RawLine, isFloat: string -> bool, clock: Timestamp.Clock)
    requires Timestamp.ValidClock(clock)
    requires Accept(line, isFloat).Some?
    ensures var row := MakeRow(clock, Accept(line, isFloat).value);
      && IsDataRow(row)
      && Text.Join(row[1..], Delimiter) == Text.Strip(line.text)
  {
  }
}
