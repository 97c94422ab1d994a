/**
 * The client side of a sticker generation (services/geminiService.ts):
 * taking the base64 payload out of a data URL, assembling the streamed
 * server-sent-event response into one text, and extracting the image
 * reference from that text.
 *
 * JSON is not modelled: `deltaOf` stands for `JSON.parse` followed by the
 * lookup of `choices[0].delta.content`. It gives the text `+=` appends
 * for a truthy content (a string as it is, any other value as
 * `String(value)` writes it), and None when the text does not parse or
 * the content is absent or falsy.
 */
module GeminiService {
  import opened Wrappers
  import opened JsString
  import opened Lines
  import MarkdownImage
  import opened Fetch

  /** `fileToGenerativePart` on the data URL the file reader produced: `split(",")`, then the second part if there is one. */
  function Base64Data(dataUrl: string): string {
    var parts := Split(dataUrl, ',');
    if |parts| > 1 then parts[1] else dataUrl
  }

  /** Without a comma the whole string is kept. */
  lemma {:induction false} Base64DataNoComma(dataUrl: string)
    requires ',' !in dataUrl
    ensures Base64Data(dataUrl) == dataUrl
  {
    SplitFree(dataUrl, ',');
  }

  /** With a comma, the result is what follows the first comma, cut at the next comma if there is one. */
  lemma Base64DataAfterComma(dataUrl: string)
    requires ',' in dataUrl
    ensures var rest := dataUrl[IndexOf(dataUrl, ',') + 1..];
      Base64Data(dataUrl) == rest[..IndexOf(rest, ',')]
  {
    var rest := dataUrl[IndexOf(dataUrl, ',') + 1..];
    SplitAtFirst(dataUrl, ',');
    assert Split(dataUrl, ',')[1] == Split(rest, ',')[0];
    SplitFirstPart(rest, ',');
  }

  /** The second comma-separated segment, located in the string it came from. */
  lemma SecondSegment(s: string, r: string)
    requires ',' in s
    requires var rest := s[IndexOf(s, ',') + 1..]; r == rest[..IndexOf(rest, ',')]
    ensures var start := IndexOf(s, ',') + 1;
      && ',' !in r && start + |r| <= |s| && s[start..start + |r|] == r
      && (start + |r| == |s| || s[start + |r|] == ',')
  {
    var start := IndexOf(s, ',') + 1;
    var rest := s[start..];
    var j := IndexOf(rest, ',');
    assert rest[..j] == s[start..start + j];
    if j < |rest| {
      assert s[start + j] == rest[j];
    }
  }

  /**
   * With a comma, the result is the comma-free text that starts right
   * after the first comma and runs to the next comma or to the end.
   */
  lemma Base64DataSegment(dataUrl: string)
    requires ',' in dataUrl
    ensures var start, r := IndexOf(dataUrl, ',') + 1, Base64Data(dataUrl);
      && ',' !in r && start + |r| <= |dataUrl| && dataUrl[start..start + |r|] == r
      && (start + |r| == |dataUrl| || dataUrl[start + |r|] == ',')
  {
    Base64DataAfterComma(dataUrl);
    SecondSegment(dataUrl, Base64Data(dataUrl));
  }

  /** The file reader's data URL for a file of type `mimeType` whose bytes encode to `b64`. */
  function FileDataUrl(mimeType: string, b64: string): string {
    "data:" + mimeType + ";base64," + b64
  }

  /** Base64 text has no comma, so the payload comes back out of the data URL unchanged. */
  lemma Base64DataOfFileDataUrl(mimeType: string, b64: string)
    requires ',' !in mimeType && ',' !in b64
    ensures Base64Data(FileDataUrl(mimeType, b64)) == b64
  {
    var header := "data:" + mimeType + ";base64";
    assert ',' !in header by {
      assert forall k :: 0 <= k < |header| ==> header[k] in "data:;base64" || header[k] in mimeType;
    }
    assert FileDataUrl(mimeType, b64) == Terminated([header], ',') + b64;
    assert AllFree([header], ',');
    SplitTerminated([header], b64, ',');
  }

  const DataPrefix: string := "data: "
  const DoneLine: string := "data: [DONE]"

  /**
   * What one complete line adds to the content: the delta of a trimmed
   * `data: ` line other than `data: [DONE]`, nothing for any other line.
   */
  function LineContribution(line: string, deltaOf: string -> Option<string>): string {
    var trimmed := Trim(line);
    if trimmed == [] || !StartsWith(trimmed, DataPrefix) then ""
    else if trimmed == DoneLine then ""
    else match deltaOf(trimmed[|DataPrefix|..])
      case Some(delta) => delta
      case None => ""
  }

  /** The deltas of `lines`, concatenated in order. */
  function Contributions(lines: seq<string>, deltaOf: string -> Option<string>): string {
    Flatten(lines, line => LineContribution(line, deltaOf))
  }

  /** Processing one more line of a batch appends that line's contribution. */
  lemma ContributionsPrefix(lines: seq<string>, j: nat, deltaOf: string -> Option<string>)
    requires j < |lines|
    ensures Contributions(lines[..j + 1], deltaOf) == Contributions(lines[..j], deltaOf) + LineContribution(lines[j], deltaOf)
  {
    assert lines[..j + 1][..j] == lines[..j];
  }

  /** The contributions of two batches of lines are those of the first followed by those of the second. */
  lemma ContributionsConcat(a: seq<string>, b: seq<string>, deltaOf: string -> Option<string>)
    ensures Contributions(a + b, deltaOf) == Contributions(a, deltaOf) + Contributions(b, deltaOf)
  {
    FlattenConcat(a, b, line => LineContribution(line, deltaOf));
  }

  /** What a chunk adds to the buffer: its text, whole. */
  function Chunk(chunk: string): string {
    chunk
  }

  /** The text of the whole stream, however it was cut into chunks. */
  function Concat(chunks: seq<string>): string {
    Flatten(chunks, Chunk)
  }

  /** The content assembled from a stream: the deltas of its complete lines; an unterminated last line is dropped. */
  function StreamContent(text: string, deltaOf: string -> Option<string>): string {
    Contributions(Complete(Split(text, '\n')), deltaOf)
  }

  /** A stream of complete lines followed by an unterminated rest yields the deltas of those lines; the rest is dropped. */
  lemma StreamContentOfLines(lines: seq<string>, rest: string, deltaOf: string -> Option<string>)
    requires AllFree(lines, '\n') && '\n' !in rest
    ensures StreamContent(Terminated(lines, '\n') + rest, deltaOf) == Contributions(lines, deltaOf)
  {
    CompleteOfTerminated(lines, rest, '\n');
  }

  /**
   * Every complete line is processed once, in order: the content of
   * complete lines followed by more text is their deltas followed by the
   * content of that text.
   */
  lemma StreamContentAppend(lines: seq<string>, text: string, deltaOf: string -> Option<string>)
    requires AllFree(lines, '\n')
    ensures StreamContent(Terminated(lines, '\n') + text, deltaOf)
         == Contributions(lines, deltaOf) + StreamContent(text, deltaOf)
  {
    var parts := Split(text, '\n');
    SplitAfterTerminated(lines, text, '\n');
    assert Complete(lines + parts) == lines + Complete(parts);
    ContributionsConcat(lines, Complete(parts), deltaOf);
  }

  /**
   * The lines the loop skips: blank lines, lines whose trimmed form does
   * not start with `data: `, the `data: [DONE]` line, and lines whose JSON
   * does not parse or has no non-empty delta.
   */
  predicate Skipped(line: string, deltaOf: string -> Option<string>) {
    var trimmed := Trim(line);
    || trimmed == ""
    || !StartsWith(trimmed, DataPrefix)
    || trimmed == DoneLine
    || deltaOf(trimmed[|DataPrefix|..]) == None
    || deltaOf(trimmed[|DataPrefix|..]) == Some("")
  }

  lemma SkippedAddsNothing(line: string, deltaOf: string -> Option<string>)
    requires Skipped(line, deltaOf)
    ensures LineContribution(line, deltaOf) == ""
  {
  }

  /** A skipped line anywhere in the stream changes nothing, and the lines around it are still processed. */
  lemma SkippedLineIgnored(before: seq<string>, line: string, text: string, deltaOf: string -> Option<string>)
    requires AllFree(before, '\n') && '\n' !in line
    requires Skipped(line, deltaOf)
    ensures StreamContent(Terminated(before + [line], '\n') + text, deltaOf)
         == StreamContent(Terminated(before, '\n') + text, deltaOf)
  {
    calc {
      StreamContent(Terminated(before + [line], '\n') + text, deltaOf);
      { AllFreeSnoc(before, line, '\n');
        StreamContentAppend(before + [line], text, deltaOf); }
      Contributions(before + [line], deltaOf) + StreamContent(text, deltaOf);
      { SkippedAddsNothing(line, deltaOf);
        ContributionsPrefix(before + [line], |before|, deltaOf);
        assert (before + [line])[..|before|] == before && (before + [line])[..|before| + 1] == before + [line]; }
      Contributions(before, deltaOf) + StreamContent(text, deltaOf);
      { StreamContentAppend(before, text, deltaOf); }
      StreamContent(Terminated(before, '\n') + text, deltaOf);
    }
  }

  /** A line whose trimmed form is a `data: ` line other than `data: [DONE]` contributes the delta of the text after the prefix, if any. */
  lemma DataLineDelta(line: string, trimmed: string, json: string, deltaOf: string -> Option<string>)
    requires Trim(line) == trimmed && trimmed == DataPrefix + json && trimmed != DoneLine
    ensures LineContribution(line, deltaOf) == OrElse(deltaOf(json), "")
  {
    assert trimmed[..|DataPrefix|] == DataPrefix && trimmed[|DataPrefix|..] == json;
  }

  /** A line that is not skipped contributes exactly its delta. */
  lemma DataLineContributes(line: string, deltaOf: string -> Option<string>)
    requires !Skipped(line, deltaOf)
    ensures var trimmed := Trim(line);
      StartsWith(trimmed, DataPrefix) && deltaOf(trimmed[|DataPrefix|..]).Some?
      && LineContribution(line, deltaOf) == deltaOf(trimmed[|DataPrefix|..]).value != ""
  {
  }

  /**
   * The inner `for (const line of lines)` of the read loop: each complete
   * line is trimmed; blank lines, lines not starting with `data: ` and the
   * `data: [DONE]` line are skipped; otherwise the delta of the JSON after
   * the prefix is appended, and a line without one adds nothing.
   */
  method ProcessLines(lines: seq<string>, deltaOf: string -> Option<string>) returns (added: string)
    ensures added == Contributions(lines, deltaOf)
  {
    added := "";
    for j := 0 to |lines|
      invariant added == Contributions(lines[..j], deltaOf)
    {
      ContributionsPrefix(lines, j, deltaOf);
      var trimmedLine := Trim(lines[j]);
      if trimmedLine == [] || !StartsWith(trimmedLine, DataPrefix) {
        continue;
      }
      if trimmedLine == DoneLine {
        continue;
      }
      var delta := deltaOf(trimmedLine[6..]);
      if delta.Some? {
        added := added + delta.value;
      }
    }
    assert lines[..|lines|] == lines;
  }

  /**
   * The read loop of `generateStickerPackOpenAI`: append each chunk to the
   * buffer, split it on `'\n'`, process every complete line, and carry
   * the unterminated last part over to the next chunk. What is left in the
   * buffer at the end is never processed. The result depends only on the
   * concatenated text, so it is the same for every way of cutting that
   * text into chunks.
   */
  method AssembleContent(chunks: seq<string>, deltaOf: string -> Option<string>)
    returns (fullContent: string, buffer: string)
    ensures fullContent == StreamContent(Concat(chunks), deltaOf)
    ensures '\n' !in buffer
    ensures Terminated(Complete(Split(Concat(chunks), '\n')), '\n') + buffer == Concat(chunks)
  {
    fullContent, buffer := "", "";
    ghost var processed: seq<string> := [];
    var i := 0;
    while i < |chunks|
      invariant 0 <= i <= |chunks|
      invariant AllFree(processed, '\n') && '\n' !in buffer
      invariant Terminated(processed, '\n') + buffer == Concat(chunks[..i])
      invariant fullContent == Contributions(processed, deltaOf)
    {
      SplitCarry(processed, buffer, chunks[i], '\n');
      var lines := Split(buffer + chunks[i], '\n');
      buffer := lines[|lines| - 1];
      var added := ProcessLines(lines[..|lines| - 1], deltaOf);
      fullContent := fullContent + added;
      ContributionsConcat(processed, Complete(lines), deltaOf);
      processed := processed + Complete(lines);
      assert chunks[..i + 1][..i] == chunks[..i];
      i := i + 1;
    }
    assert chunks[..i] == chunks;
    CompleteOfTerminated(processed, buffer, '\n');
  }

  datatype ExtractError = EmptyContent | NoImageDetected

  /**
   * `extractImageFromContent`: empty content is an error; otherwise the URL
   * of the first markdown image link if it is not empty; otherwise the
   * trimmed content if it starts with `http` or `data:image`; otherwise an
   * error.
   */
  function ExtractImage(content: string): (r: Result<string, ExtractError>)
    ensures r.Success? ==> content != "" && r.value != ""
  {
    if content == "" then Failure(EmptyContent)
    else
      var m := MarkdownImage.FirstMatch(content);
      if m.Some? && MarkdownImage.Url(content, m.value) != "" then
        Success(MarkdownImage.Url(content, m.value))
      else
        var trimmed := Trim(content);
        if StartsWith(trimmed, "http") || StartsWith(trimmed, "data:image") then Success(trimmed)
        else Failure(NoImageDetected)
  }

  /** Empty content is rejected and yields no image reference. */
  lemma ExtractEmpty()
    ensures ExtractImage("") == Failure(EmptyContent)
  {
  }

  /**
   * When the first markdown image link has a non-empty URL, that URL is
   * the result, whatever else the content holds (even when it also starts
   * with `http`).
   */
  lemma ExtractMarkdown(content: string, m: MarkdownImage.Match)
    requires MarkdownImage.IsFirstMatch(content, m) && m.url > 0
    ensures ExtractImage(content) == Success(MarkdownImage.Url(content, m))
  {
    var found := MarkdownImage.FirstMatch(content);
    assert found.Some?;
    MarkdownImage.FirstMatchUnique(content, found.value, m);
  }

  /**
   * A link with a non-empty URL after text without `!` is the one
   * extracted, whatever surrounds it.
   */
  lemma ExtractLink(before: string, alt: string, url: string, after: string)
    requires '!' !in before && MarkdownImage.PlainWithout(alt, ']') && MarkdownImage.PlainWithout(url, ')')
    requires url != ""
    ensures ExtractImage(before + MarkdownImage.Link(alt, url) + after) == Success(url)
  {
    var s := before + MarkdownImage.Link(alt, url) + after;
    MarkdownImage.LinkIsFirstMatch(before, alt, url, after);
    ExtractMarkdown(s, MarkdownImage.Match(|before|, |alt|, |url|));
  }

  /** Content without `!` and with nothing to trim that starts with `http` or `data:image` is returned as it is. */
  lemma ExtractBareReference(content: string)
    requires '!' !in content && content != "" && IsTrimmed(content)
    requires StartsWith(content, "http") || StartsWith(content, "data:image")
    ensures ExtractImage(content) == Success(content)
  {
    MarkdownImage.NoBangNoMatch(content);
    TrimOfTrimmed(content);
  }

  /** The content has no markdown image link, or the first one has an empty URL. */
  ghost predicate NoMarkdownUrl(content: string) {
    forall m :: MarkdownImage.IsFirstMatch(content, m) ==> m.url == 0
  }

  /**
   * Without a usable markdown link, content whose trimmed form starts with
   * `http` or `data:image` is returned trimmed and otherwise unchanged.
   */
  lemma ExtractRawReference(content: string)
    requires content != "" && NoMarkdownUrl(content)
    requires StartsWith(Trim(content), "http") || StartsWith(Trim(content), "data:image")
    ensures ExtractImage(content) == Success(Trim(content))
  {
    var found := MarkdownImage.FirstMatch(content);
    if found.Some? {
      assert found.value.url == 0;
    }
  }

  /** Content that matches neither rule is rejected with "no image detected". */
  lemma ExtractNothing(content: string)
    requires content != "" && NoMarkdownUrl(content)
    requires !StartsWith(Trim(content), "http") && !StartsWith(Trim(content), "data:image")
    ensures ExtractImage(content) == Failure(NoImageDetected)
  {
    var found := MarkdownImage.FirstMatch(content);
    if found.Some? {
      assert found.value.url == 0;
    }
  }

  /** What the client learns from the `/api/generate` response. */
  datatype Reply = Reply(status: int, errorField: Option<string>, body: Option<seq<string>>)

  datatype GenerateError =
    | RequestFailed(status: int, message: Option<string>)  // the server's `error` text, or None for the generic message
    | NoResponseBody
    | Extraction(reason: ExtractError)

  /** The body `generateStickerPackOpenAI` posts: `mode` falls back to `sticker-pack` when absent or empty. */
  function RequestMode(mode: Option<string>): (r: string)
    ensures r != ""
    ensures Truthy(mode) ==> r == mode.value
    ensures !Truthy(mode) ==> r == "sticker-pack"
  {
    OrElse(mode, "sticker-pack")
  }

  /**
   * The part of `generateStickerPackOpenAI` after the request is sent: a
   * failed status becomes an error carrying the server's message if it
   * sent one, a missing body an error, and otherwise the stream is read to
   * its end and the image reference extracted from what it assembled.
   */
  method ReadGeneration(reply: Reply, deltaOf: string -> Option<string>) returns (r: Result<string, GenerateError>)
    ensures !IsOk(reply.status) ==>
      r == Failure(RequestFailed(reply.status, if Truthy(reply.errorField) then reply.errorField else None))
    ensures IsOk(reply.status) && reply.body.None? ==> r == Failure(NoResponseBody)
    ensures IsOk(reply.status) && reply.body.Some? ==>
      match ExtractImage(StreamContent(Concat(reply.body.value), deltaOf))
      case Success(reference) => r == Success(reference)
      case Failure(reason) => r == Failure(Extraction(reason))
  {
    if !IsOk(reply.status) {
      var message := if Truthy(reply.errorField) then reply.errorField else None;
      return Failure(RequestFailed(reply.status, message));
    }
    if reply.body.None? {
      return Failure(NoResponseBody);
    }
    var fullContent, _ := AssembleContent(reply.body.value, deltaOf);
    var extracted := ExtractImage(fullContent);
    match extracted {
      case Success(reference) => r := Success(reference);
      case Failure(reason) => r := Failure(Extraction(reason));
    }
  }
}
