/**
 * Recognition of a component code from a photographed label (app.py:225-255):
 * the recognised text is taken from the local reader, or, when that gives
 * nothing, from the OCR.space reply; the code is then the first run of seven
 * digits in that text (`re.findall(r'\d{7}', text)[0]`).
 *
 * Both recognition engines are inputs here: the local reader's fragments
 * (`None` when the reader could not be loaded) and the remote reply record.
 */
module CodeScan {
  import opened Options
  import opened TextOps

  /** Number of digits in a component code. */
  const CodeLength: nat := 7

  /** What `\d` matches, restricted to the ASCII digits. */
  predicate IsDigit(c: char) {
    '0' <= c <= '9'
  }

  predicate AllDigits(s: string) {
    forall k :: 0 <= k < |s| ==> IsDigit(s[k])
  }

  /** A component code: exactly seven digits. */
  predicate IsCode(s: string) {
    |s| == CodeLength && AllDigits(s)
  }

  /** The pattern `\d{7}` matches `text` at position `i`. */
  predicate RunAt(text: string, i: nat) {
    i + CodeLength <= |text| && AllDigits(text[i..i + CodeLength])
  }

  // ---------------------------------------------------------------------------
  // the regular-expression scan

  /** The leftmost position at or after `from` where seven digits follow, if any. */
  function FirstRunFrom(text: string, from: nat): (r: Option<nat>)
    ensures r.Some? ==> from <= r.value && RunAt(text, r.value)
    ensures r.Some? ==> forall j: nat :: from <= j < r.value ==> !RunAt(text, j)
    ensures r.None? ==> forall j: nat :: from <= j ==> !RunAt(text, j)
    decreases |text| - from
  {
    if from + CodeLength > |text| then None
    else if RunAt(text, from) then Some(from)
    else FirstRunFrom(text, from + 1)
  }

  /**
   * The first element of `re.findall(r'\d{7}', text)`, or `None` when the
   * list is empty. A code is found exactly when seven digits occur in a row
   * somewhere; it is then the seven characters at the leftmost such place.
   */
  function ExtractCode(text: string): (r: Option<string>)
    ensures r.None? <==> forall i: nat :: !RunAt(text, i)
    ensures r.Some? ==> IsCode(r.value)
    ensures r.Some? ==> exists i: nat :: RunAt(text, i) && r.value == text[i..i + CodeLength]
                                         && forall j: nat :: j < i ==> !RunAt(text, j)
  {
    match FirstRunFrom(text, 0)
    case None => None
    case Some(i) => Some(text[i..i + CodeLength])
  }

  /** Whatever the leftmost run of seven digits is, that run is the extracted code. */
  lemma ExtractLeftmost(text: string, i: nat)
    requires RunAt(text, i)
    requires forall j: nat :: j < i ==> !RunAt(text, j)
    ensures ExtractCode(text) == Some(text[i..i + CodeLength])
  {
    assert FirstRunFrom(text, 0).Some?;
  }

  /** A code preceded only by non-digits is the code extracted, whatever follows it. */
  lemma CodeAfterNonDigits(prefix: string, code: string, rest: string)
    requires forall k :: 0 <= k < |prefix| ==> !IsDigit(prefix[k])
    requires IsCode(code)
    ensures ExtractCode(prefix + code + rest) == Some(code)
  {
    var text := prefix + code + rest;
    var i := |prefix|;
    assert text[i..i + CodeLength] == code;
    forall j: nat | j < i
      ensures !RunAt(text, j)
    {
      if j + CodeLength <= |text| {
        assert text[j..j + CodeLength][0] == prefix[j];
      }
    }
    ExtractLeftmost(text, i);
  }

  /** A run of eight digits yields its first seven. */
  lemma ExtractFromLongerRun()
    ensures ExtractCode("12345678") == Some("1234567")
  {
    CodeAfterNonDigits("", "1234567", "8");
    assert "" + "1234567" + "8" == "12345678";
  }

  /** Of two codes the first one wins. */
  lemma ExtractFirstOfTwo()
    ensures ExtractCode("1234567 and 7654321") == Some("1234567")
  {
    CodeAfterNonDigits("", "1234567", " and 7654321");
    assert "" + "1234567" + " and 7654321" == "1234567 and 7654321";
  }

  /** A code surrounded by text is found. */
  lemma ExtractSurrounded()
    ensures ExtractCode("ABC 1234567 XYZ") == Some("1234567")
  {
    CodeAfterNonDigits("ABC ", "1234567", " XYZ");
    assert "ABC " + "1234567" + " XYZ" == "ABC 1234567 XYZ";
  }

  /** Six digits, a dash and a seventh digit are no code. */
  lemma ExtractBrokenRun()
    ensures ExtractCode("lot 123456-7") == None
  {
    var u := "lot 123456-7";
    forall i: nat
      ensures !RunAt(u, i)
    {
      if i + CodeLength <= |u| {
        assert !IsDigit(u[i..i + CodeLength][if i <= 3 then 3 - i else 10 - i]);
      }
    }
  }

  // ---------------------------------------------------------------------------
  // choosing the recognised text

  /** One entry of the `ParsedResults` list of an OCR.space reply. */
  datatype ParsedResult = ParsedResult(parsedText: string)

  /** The part of an OCR.space reply the program reads. */
  datatype OcrReply = OcrReply(erroredOnProcessing: bool, parsedResults: seq<ParsedResult>)

  /** The reply `ocr_space_api` makes up when the request or its decoding raises. */
  const TransportFailure: OcrReply := OcrReply(true, [])

  /** The local reader's text: its fragments joined by single spaces, or "" when the reader is missing or read nothing. */
  function LocalText(reader: Option<seq<string>>): (r: string)
    ensures r != "" ==> reader.Some? && |reader.value| > 0
    ensures reader.Some? && |reader.value| > 0 ==> reader.value[0] <= r
  {
    if reader.Some? && |reader.value| > 0 then Join(reader.value, ' ') else ""
  }

  /** The remote text: the first parsed text with each CR LF made a space, or "" for an errored or empty reply. */
  function RemoteText(reply: OcrReply): (r: string)
    ensures reply.erroredOnProcessing || |reply.parsedResults| == 0 ==> r == ""
  {
    if reply.erroredOnProcessing || |reply.parsedResults| == 0 then ""
    else ReplaceCrLf(reply.parsedResults[0].parsedText)
  }

  /** The text handed to the extractor: the local text, or the remote text when the local text is empty. */
  function DetectText(reader: Option<seq<string>>, reply: OcrReply): (r: string)
    ensures LocalText(reader) != "" ==> r == LocalText(reader)
    ensures LocalText(reader) == "" ==> r == RemoteText(reply)
    ensures r == "" <==> LocalText(reader) == "" && RemoteText(reply) == ""
  {
    var local := LocalText(reader);
    if local != "" then local else RemoteText(reply)
  }

  /** The local text is non-empty exactly when the reader returned something other than nothing or one empty fragment. */
  lemma LocalTextNonEmpty(reader: Option<seq<string>>)
    ensures LocalText(reader) != "" <==>
              reader.Some? && (|reader.value| > 1 || (|reader.value| == 1 && reader.value[0] != ""))
  {
    if reader.Some? {
      JoinEmptyIff(reader.value, ' ');
    }
  }

  /**
   * When the local reader produced text, that text is used as it is and the
   * remote reply, whatever it would have been, plays no part.
   */
  lemma LocalTextWins(reader: Option<seq<string>>, reply: OcrReply, other: OcrReply)
    requires reader.Some? && (|reader.value| > 1 || (|reader.value| == 1 && reader.value[0] != ""))
    ensures DetectText(reader, reply) == Join(reader.value, ' ')
    ensures DetectText(reader, reply) == DetectText(reader, other)
  {
    LocalTextNonEmpty(reader);
  }

  /**
   * Text comes from the remote reply only when the local text is empty, the
   * reply is not errored and it holds at least one parsed result; the text
   * then holds no CR LF.
   */
  lemma RemoteTextUse(reader: Option<seq<string>>, reply: OcrReply)
    requires DetectText(reader, reply) != LocalText(reader)
    ensures LocalText(reader) == ""
    ensures !reply.erroredOnProcessing && |reply.parsedResults| > 0
    ensures DetectText(reader, reply) == ReplaceCrLf(reply.parsedResults[0].parsedText)
  {
  }

  /**
   * With no local text, a reply that is not errored and holds a parsed result
   * supplies the text: its first parsed text with each CR LF made a space.
   */
  lemma RemoteTextUsed(reader: Option<seq<string>>, reply: OcrReply)
    requires LocalText(reader) == ""
    requires !reply.erroredOnProcessing && |reply.parsedResults| > 0
    ensures DetectText(reader, reply) == ReplaceCrLf(reply.parsedResults[0].parsedText)
  {
  }

  /** Only a reply that is not errored and holds a parsed result can contribute any text. */
  lemma RemoteTextNeedsResult(reply: OcrReply)
    ensures RemoteText(reply) != "" ==> !reply.erroredOnProcessing && |reply.parsedResults| > 0
    ensures !HasCrLf(RemoteText(reply))
  {
    if !reply.erroredOnProcessing && |reply.parsedResults| > 0 {
      ReplaceCrLfShape(reply.parsedResults[0].parsedText);
    }
  }

  /** With no local text and a failed request there is no text, hence no code. */
  lemma NothingRecognised(reader: Option<seq<string>>)
    requires LocalText(reader) == ""
    ensures DetectText(reader, TransportFailure) == ""
    ensures ExtractCode(DetectText(reader, TransportFailure)) == None
  {
  }
}
