/**
 * The two halves together: the body the client posts to `/api/generate`
 * and what the handler makes of it, and a generation read from a stream
 * whose chunks cut its lines anywhere.
 */
module EndToEnd {
  import opened Wrappers
  import opened JsString
  import opened Lines
  import GeminiService
  import GenerateHandler
  import MarkdownImage

  /**
   * The JSON body `generateStickerPackOpenAI` posts: the password, the
   * base64 taken out of the file's data URL, the file's type and the mode
   * with its default.
   */
  function ClientBody(password: string, dataUrl: string, mimeType: string, mode: Option<string>): GenerateHandler.RequestBody {
    GenerateHandler.RequestBody(
      GenerateHandler.Text(password),
      GenerateHandler.Text(GeminiService.Base64Data(dataUrl)),
      GenerateHandler.Text(mimeType),
      GenerateHandler.Text(GeminiService.RequestMode(mode)))
  }

  /**
   * The data URI the handler sends upstream is the data URL the file
   * reader produced: the base64 cut out on the client is put back behind
   * the same `data:<type>;base64,` header on the server.
   */
  lemma ImageReachesUpstream(env: GenerateHandler.Env, password: string, mimeType: string, b64: string, mode: Option<string>)
    requires ',' !in mimeType && ',' !in b64
    ensures var body := ClientBody(password, GeminiService.FileDataUrl(mimeType, b64), mimeType, mode);
      GenerateHandler.BuildPayload(env, body).messages[0].content[1]
        == GenerateHandler.ImageUrlPart(GeminiService.FileDataUrl(mimeType, b64))
  {
    GeminiService.Base64DataOfFileDataUrl(mimeType, b64);
  }

  /**
   * The mode the client sends selects the hat prompt exactly when the
   * caller asked for `christmas-hat`; no mode, an empty one or
   * `sticker-pack` selects the sticker sheet.
   */
  lemma ClientModeSelectsPrompt(mode: Option<string>)
    ensures GenerateHandler.SelectPrompt(GenerateHandler.Text(GeminiService.RequestMode(mode))) == GenerateHandler.ChristmasHat
        <==> mode == Some("christmas-hat")
  {
    if mode == Some("") {
      assert GeminiService.RequestMode(mode) == "sticker-pack";
    }
  }

  /** The client's password is the one the handler compares, so a correct password passes the gate when both settings are set. */
  lemma MatchingPasswordPasses(env: GenerateHandler.Env, password: string, dataUrl: string, mimeType: string, mode: Option<string>)
    requires env.accessPassword == Some(password) && password != "" && Truthy(env.apiKey)
    ensures GenerateHandler.Authorized(env, ClientBody(password, dataUrl, mimeType, mode))
  {
  }

  /** A `data: ` line ending in a visible character is its own trimmed form. */
  lemma DataLineTrimmed(json: string)
    requires json != [] && !IsTrimmable(json[|json| - 1])
    ensures Trim(GeminiService.DataPrefix + json) == GeminiService.DataPrefix + json
  {
    var line := GeminiService.DataPrefix + json;
    assert line[0] == 'd' && line[|line| - 1] == json[|json| - 1];
    TrimOfTrimmed(line);
  }

  /** A `data: ` line carrying `json` contributes the delta of `json`. */
  lemma DataLine(json: string, deltaOf: string -> Option<string>)
    requires json != [] && !IsTrimmable(json[|json| - 1]) && GeminiService.DataPrefix + json != GeminiService.DoneLine
    ensures GeminiService.LineContribution(GeminiService.DataPrefix + json, deltaOf) == OrElse(deltaOf(json), "")
  {
    DataLineTrimmed(json);
    var line := GeminiService.DataPrefix + json;
    GeminiService.DataLineDelta(line, line, json, deltaOf);
  }

  /** The `data: [DONE]` line contributes nothing. */
  lemma DoneLineSilent(deltaOf: string -> Option<string>)
    ensures GeminiService.LineContribution(GeminiService.DoneLine, deltaOf) == ""
  {
    TrimOfTrimmed(GeminiService.DoneLine);
  }

  lemma TerminatedThree(x: string, y: string, z: string)
    ensures Terminated([x, y, z], '\n') == x + "\n" + y + "\n" + z + "\n"
  {
    var lines := [x, y, z];
    assert lines[1..] == [y, z] && lines[1..][1..] == [z] && lines[1..][1..][1..] == [];
    assert Terminated([z], '\n') == z + "\n" + "";
    assert Terminated([y, z], '\n') == y + "\n" + (z + "\n" + "");
  }

  lemma FlattenThree<T>(x: T, y: T, z: T, f: T -> string)
    ensures Flatten([x, y, z], f) == f(x) + f(y) + f(z)
  {
    var xs := [x, y, z];
    assert xs[..2] == [x, y] && xs[..2][..1] == [x] && xs[..2][..1][..0] == [];
    assert Flatten([x], f) == f(x);
    assert Flatten([x, y], f) == f(x) + f(y);
  }

  lemma ContributionsThree(x: string, y: string, z: string, deltaOf: string -> Option<string>)
    ensures GeminiService.Contributions([x, y, z], deltaOf)
         == GeminiService.LineContribution(x, deltaOf) + GeminiService.LineContribution(y, deltaOf)
            + GeminiService.LineContribution(z, deltaOf)
  {
    FlattenThree(x, y, z, line => GeminiService.LineContribution(line, deltaOf));
  }

  /**
   * Two events followed by `data: [DONE]`, with the second event's line
   * cut at any point between two chunks: the content is the first delta
   * followed by the second, as if the line had arrived whole, and the
   * `[DONE]` line adds nothing.
   */
  lemma DeltasJoinAcrossChunks(first: string, second: string, cut: nat, deltaOf: string -> Option<string>)
    requires first != [] && !IsTrimmable(first[|first| - 1]) && '\n' !in first
    requires second != [] && !IsTrimmable(second[|second| - 1]) && '\n' !in second
    requires GeminiService.DataPrefix + first != GeminiService.DoneLine
    requires GeminiService.DataPrefix + second != GeminiService.DoneLine
    requires cut <= |GeminiService.DataPrefix + second|
    ensures var l1, l2 := GeminiService.DataPrefix + first, GeminiService.DataPrefix + second;
      var chunks := [l1 + "\n" + l2[..cut], l2[cut..] + "\n", GeminiService.DoneLine + "\n"];
      GeminiService.StreamContent(GeminiService.Concat(chunks), deltaOf)
        == OrElse(deltaOf(first), "") + OrElse(deltaOf(second), "")
  {
    var l1, l2, l3 := GeminiService.DataPrefix + first, GeminiService.DataPrefix + second, GeminiService.DoneLine;
    ChunksSpellLines(l1, l2, l3, cut);
    GeminiService.StreamContentOfLines([l1, l2, l3], "", deltaOf);
    TwoEventsThenDone(first, second, deltaOf);
  }

  /** Three newline-free lines, the middle one cut between the first two chunks. */
  lemma ChunksSpellLines(l1: string, l2: string, l3: string, cut: nat)
    requires '\n' !in l1 && '\n' !in l2 && '\n' !in l3 && cut <= |l2|
    ensures GeminiService.Concat([l1 + "\n" + l2[..cut], l2[cut..] + "\n", l3 + "\n"]) == Terminated([l1, l2, l3], '\n') + ""
    ensures AllFree([l1, l2, l3], '\n')
  {
    var c1, c2, c3 := l1 + "\n" + l2[..cut], l2[cut..] + "\n", l3 + "\n";
    FlattenThree(c1, c2, c3, GeminiService.Chunk);
    TerminatedThree(l1, l2, l3);
    assert l2[..cut] + l2[cut..] == l2;
  }

  /** The lines of two events and the `[DONE]` line contribute the two deltas. */
  lemma TwoEventsThenDone(first: string, second: string, deltaOf: string -> Option<string>)
    requires first != [] && !IsTrimmable(first[|first| - 1])
    requires second != [] && !IsTrimmable(second[|second| - 1])
    requires GeminiService.DataPrefix + first != GeminiService.DoneLine
    requires GeminiService.DataPrefix + second != GeminiService.DoneLine
    ensures GeminiService.Contributions([GeminiService.DataPrefix + first, GeminiService.DataPrefix + second, GeminiService.DoneLine], deltaOf)
         == OrElse(deltaOf(first), "") + OrElse(deltaOf(second), "")
  {
    ContributionsThree(GeminiService.DataPrefix + first, GeminiService.DataPrefix + second, GeminiService.DoneLine, deltaOf);
    DataLine(first, deltaOf);
    DataLine(second, deltaOf);
    DoneLineSilent(deltaOf);
  }

  /** A data URL with nothing around it is returned as it is. */
  lemma ExtractDataUrl()
    ensures GeminiService.ExtractImage("data:image/png;base64,AAAA") == Success("data:image/png;base64,AAAA")
  {
    var s := "data:image/png;base64,AAAA";
    assert s[0] == 'd' && s[|s| - 1] == 'A';
    assert s[..10] == "data:image";
    GeminiService.ExtractBareReference(s);
  }

  /** A link preceded by other text is still found, and only its URL is returned. */
  lemma ExtractEmbeddedLink()
    ensures GeminiService.ExtractImage("xxx![pic](http://x/y.png)xxx") == Success("http://x/y.png")
  {
    assert "xxx![pic](http://x/y.png)xxx" == "xxx" + MarkdownImage.Link("pic", "http://x/y.png") + "xxx";
    GeminiService.ExtractLink("xxx", "pic", "http://x/y.png", "xxx");
  }
}
