/** The text handling of `getWinnerNums`: the draw record is the line after the header of
    the feed, its fields separated by two spaces. */
module WinningNumbers {
  import opened Wrappers
  import opened Text

  const LineSeparator: string := "\n"
  const FieldSeparator: string := "  "

  /** `lines = feed.split('\n')`; when there is more than one line, the numbers are
      `lines[1].trim().split('  ')`; otherwise there are none. */
  function ExtractWinners(feed: string): (numbers: Option<seq<string>>)
    ensures numbers.Some? <==> Contains(feed, LineSeparator)
    ensures numbers.Some? ==> |numbers.value| >= 1
  {
    var lines := Split(feed, LineSeparator);
    if |lines| > 1 then Some(Split(Trim(lines[1]), FieldSeparator)) else None
  }

  /** The record line of a feed: the second of its lines, trimmed. */
  function RecordLine(feed: string): (line: string)
    requires Contains(feed, LineSeparator)
    ensures '\n' !in line
  {
    var lines := Split(feed, LineSeparator);
    SplitFieldsFree(feed, LineSeparator);
    ContainsChar(lines[1], '\n');
    var line := Trim(lines[1]);
    TrimKeepsChars(lines[1]);
    line
  }

  /** The numbers of a feed with a record line: at least one field, none holding the
      two-space separator, and joined back with two spaces they give the trimmed record line. */
  lemma WinnersFields(feed: string)
    requires Contains(feed, LineSeparator)
    ensures var numbers := ExtractWinners(feed).value;
      && |numbers| >= 1
      && (forall k :: 0 <= k < |numbers| ==> !Contains(numbers[k], FieldSeparator))
      && Join(numbers, FieldSeparator) == RecordLine(feed)
  {
    var line := RecordLine(feed);
    assert ExtractWinners(feed).value == Split(line, FieldSeparator);
    SplitFieldsFree(line, FieldSeparator);
    SplitJoin(line, FieldSeparator);
  }

  /** The lines of a header line followed by more text: the header, then the lines of
      the rest. */
  lemma LinesAfterHeader(header: string, more: string)
    requires '\n' !in header
    ensures Split(header + "\n" + more, LineSeparator) == [header] + Split(more, LineSeparator)
  {
    ContainsChar(header, '\n');
    SplitAtFirst(header, LineSeparator, more);
  }

  /** A record line that ends the feed is its second line. */
  lemma SecondLineAtEnd(header: string, record: string)
    requires '\n' !in header && '\n' !in record
    ensures var lines := Split(header + "\n" + record, LineSeparator);
      |lines| > 1 && lines[1] == record
  {
    LinesAfterHeader(header, record);
    ContainsChar(record, '\n');
    assert Split(record, LineSeparator) == [record];
  }

  /** A record line followed by a newline and anything else is the second line. */
  lemma SecondLineBeforeRest(header: string, record: string, rest: string)
    requires '\n' !in header && '\n' !in record
    ensures var lines := Split(header + "\n" + record + "\n" + rest, LineSeparator);
      |lines| > 1 && lines[1] == record
  {
    assert header + "\n" + record + "\n" + rest == header + "\n" + (record + "\n" + rest);
    LinesAfterHeader(header, record + "\n" + rest);
    LinesAfterHeader(record, rest);
  }

  /** Only the line after the header matters: neither the header's text nor anything after
      the record line changes the numbers. */
  lemma WinnersIgnoreHeaderAndRest(header: string, record: string, rest: string)
    requires '\n' !in header && '\n' !in record
    ensures ExtractWinners(header + "\n" + record) == Some(Split(Trim(record), FieldSeparator))
    ensures ExtractWinners(header + "\n" + record + "\n" + rest) == Some(Split(Trim(record), FieldSeparator))
  {
    SecondLineAtEnd(header, record);
    SecondLineBeforeRest(header, record, rest);
  }

  /** The draw record "01  02  03  04  05  06" splits into its six numbers. */
  lemma RecordExample()
    ensures Split("01  02  03  04  05  06", FieldSeparator) == ["01", "02", "03", "04", "05", "06"]
  {
    var fields := ["01", "02", "03", "04", "05", "06"];
    ExampleFieldsJoin();
    ExampleFieldsPlain();
    JoinSplit(fields, FieldSeparator);
  }

  /** The numbers "01" to "06", joined with two spaces, are the record line "01  02  03  04  05  06". */
  lemma ExampleFieldsJoin()
    ensures Join(["01", "02", "03", "04", "05", "06"], FieldSeparator) == "01  02  03  04  05  06"
  {
    var fields := ["01", "02", "03", "04", "05", "06"];
    assert Join(fields[5..], FieldSeparator) == "06";
    assert fields[4..][1..] == fields[5..];
    assert Join(fields[4..], FieldSeparator) == "05  06";
    assert fields[3..][1..] == fields[4..];
    assert Join(fields[3..], FieldSeparator) == "04  05  06";
    assert fields[2..][1..] == fields[3..];
    assert Join(fields[2..], FieldSeparator) == "03  04  05  06";
    assert fields[1..][1..] == fields[2..];
    assert Join(fields[1..], FieldSeparator) == "02  03  04  05  06";
  }

  /** None of the numbers "01" to "06" holds a space. */
  lemma ExampleFieldsPlain()
    ensures var fields := ["01", "02", "03", "04", "05", "06"];
      forall k, j :: 0 <= k < |fields| && 0 <= j < |fields[k]| ==> !InSeparator(fields[k][j], FieldSeparator)
  {
    var fields := ["01", "02", "03", "04", "05", "06"];
    forall k, j | 0 <= k < |fields| && 0 <= j < |fields[k]|
      ensures !InSeparator(fields[k][j], FieldSeparator)
    {
      assert |fields[k]| == 2 && fields[k][0] == '0' && '1' <= fields[k][1] <= '6';
    }
  }

  /** A record line without white space at either end is split as it stands. */
  lemma WinnersOfTrimmedRecord(header: string, record: string, rest: string)
    requires '\n' !in header && '\n' !in record
    requires |record| > 0 && !IsWhiteSpace(record[0]) && !IsWhiteSpace(record[|record| - 1])
    ensures ExtractWinners(header + "\n" + record + "\n" + rest) == Some(Split(record, FieldSeparator))
  {
    SecondLineBeforeRest(header, record, rest);
    TrimIdempotent(record);
  }

  /** A feed of a header, one draw record and a trailing newline. */
  const SampleFeed: string := "header\n01  02  03  04  05  06\n"

  /** The sample feed gives the six numbers of its record. */
  lemma FeedExample()
    ensures ExtractWinners(SampleFeed) == Some(["01", "02", "03", "04", "05", "06"])
  {
    var header, record := "header", "01  02  03  04  05  06";
    SampleFeedParts();
    RecordLineTrimmed();
    WinnersOfTrimmedRecord(header, record, "");
    RecordExample();
  }

  /** The sample feed is its header, its record line and a trailing newline. */
  lemma SampleFeedParts()
    ensures SampleFeed == "header" + "\n" + "01  02  03  04  05  06" + "\n" + ""
  {
  }

  /** The sample record line is one line with no white space at its ends. */
  lemma RecordLineTrimmed()
    ensures var record := "01  02  03  04  05  06";
      '\n' !in record && !IsWhiteSpace(record[0]) && !IsWhiteSpace(record[|record| - 1])
  {
  }
}
