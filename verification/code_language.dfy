/** The override of the markdown parser's code-block renderer: choosing a safe
    language token from a fenced block's info string, routing the block to the
    diagram pass, to a named grammar or to auto-detection, and building the
    `class` attribute of the highlighted `<code>` element.

    The same override appears twice in the workspace, once in the rendering
    hook and once in the older preview component; the two are identical and
    are modelled once, here. */
module CodeLanguage {
  import opened Base
  import opened Text

  /** A fenced code block as the parser hands it to the renderer: its text
      and its info string, which may be absent. */
  datatype CodeToken = CodeToken(text: string, lang: Option<string>)

  /** `[0-9a-z+-]` under the `i` flag: ASCII digits, ASCII letters of either
      case, `+` and `-`. */
  predicate IsLangChar(c: char) {
    ('0' <= c <= '9') || ('a' <= c <= 'z') || ('A' <= c <= 'Z') || c == '+' || c == '-'
  }

  /** The whitelist `/^[0-9a-z+-]+$/i`. */
  predicate IsSafeLang(s: string) {
    |s| > 0 && forall i :: 0 <= i < |s| ==> IsLangChar(s[i])
  }

  /** `^[0-9a-z+-]+$` taken literally: a non-empty lower-case token. */
  predicate IsLowerLang(s: string) {
    |s| > 0 && forall i :: 0 <= i < |s| ==> (('0' <= s[i] <= '9') || ('a' <= s[i] <= 'z') || s[i] == '+' || s[i] == '-')
  }

  /** The first word of the trimmed info string, lower-cased (empty when the
      info string is absent or blank). */
  function RawLanguage(info: Option<string>): (r: string)
    ensures info.None? ==> r == ""
    ensures |r| <= |info.GetOr("")|
    ensures HasNoUpper(r)
    ensures forall i :: 0 <= i < |r| ==> !IsWhitespace(r[i])
  {
    var word := FirstWord(Trim(info.GetOr("")));
    assert Trim("") == "";
    ToLower(word)
  }

  /** Lower-casing neither admits nor removes a character from the whitelist. */
  lemma LowerKeepsSafety(s: string)
    ensures IsSafeLang(ToLower(s)) <==> IsSafeLang(s)
    ensures IsSafeLang(s) ==> IsLowerLang(ToLower(s))
  {
  }

  /** The language token of a block: the raw language when it passes the
      whitelist, the empty string otherwise. */
  function LanguageToken(code: CodeToken): (r: string)
    ensures r == "" || IsLowerLang(r)
    ensures r != "" ==> r == RawLanguage(code.lang)
    ensures r == "" <==> !IsSafeLang(FirstWord(Trim(code.lang.GetOr(""))))
  {
    var raw := RawLanguage(code.lang);
    LowerKeepsSafety(FirstWord(Trim(code.lang.GetOr(""))));
    if IsSafeLang(raw) then raw else ""
  }

  /** The token is read from the first word of the info string, whatever
      whitespace precedes it and whatever follows it: a whitelisted word
      becomes its lower-case form, any other word yields the empty token. */
  lemma TokenOfInfo(text: string, lead: string, w: string, rest: string)
    requires AllWhitespace(lead)
    requires w != [] && forall i :: 0 <= i < |w| ==> !IsWhitespace(w[i])
    requires rest == [] || IsWhitespace(rest[0])
    ensures LanguageToken(CodeToken(text, Some(lead + w + rest))) ==
            (if IsSafeLang(w) then ToLower(w) else "")
  {
    TrimOfPadded(lead, w, rest);
    var k :| 0 <= k <= |rest| && Trim(lead + w + rest) == w + rest[..k];
    var t := rest[..k];
    assert t == [] || IsWhitespace(t[0]) by {
      if t != [] {
        assert t[0] == rest[0];
      }
    }
    FirstWordOfWords(w, t);
  }

  /** The class list of a highlighted block, `["hljs"]` or
      `["hljs", "language-X"]`. */
  function ClassNames(detected: string): (r: seq<string>)
    ensures 1 <= |r| <= 2 && r[0] == "hljs"
    ensures |r| == 2 <==> IsSafeLang(detected)
    ensures |r| == 2 ==> r[1] == "language-" + detected
  {
    if detected != "" && IsSafeLang(detected) then ["hljs", "language-" + detected] else ["hljs"]
  }

  /** `names.join(" ")`. */
  function JoinWithSpace(names: seq<string>): string {
    if names == [] then ""
    else if |names| == 1 then names[0]
    else names[0] + " " + JoinWithSpace(names[1..])
  }

  const ClassPrefix: string := "hljs language-"

  /** The value written into the `class` attribute. */
  function ClassAttr(detected: string): (r: string)
    ensures forall i :: 0 <= i < |r| ==> IsLangChar(r[i]) || r[i] == ' '
  {
    var names := ClassNames(detected);
    if |names| == 2 then
      assert JoinWithSpace(names) == "hljs" + " " + ("language-" + detected);
      JoinWithSpace(names)
    else
      JoinWithSpace(names)
  }

  /** Reads the language back out of a class attribute. */
  function ClassLanguage(attr: string): Option<string> {
    if |attr| >= |ClassPrefix| && attr[..|ClassPrefix|] == ClassPrefix
    then Some(attr[|ClassPrefix|..]) else None
  }

  /** The attribute carries the detected language exactly when it passes the
      whitelist, and then it is `hljs language-X`; otherwise it is `hljs`. */
  lemma ClassAttrRoundTrip(detected: string)
    ensures ClassLanguage(ClassAttr(detected)) ==
            (if IsSafeLang(detected) then Some(detected) else None)
    ensures ClassAttr(detected) == (if IsSafeLang(detected) then ClassPrefix + detected else "hljs")
  {
    var names := ClassNames(detected);
    if |names| == 2 {
      assert JoinWithSpace(names) == ClassPrefix + detected;
      assert (ClassPrefix + detected)[..|ClassPrefix|] == ClassPrefix;
      assert (ClassPrefix + detected)[|ClassPrefix|..] == detected;
    }
  }

  /** Result of `hljs.highlightAuto`: markup and the best-guess grammar name,
      which may be absent. */
  datatype AutoResult = AutoResult(value: string, language: Option<string>)

  /** The syntax highlighter, seen only through the three calls the renderer
      makes: whether a grammar is known, highlighting with a named grammar,
      and auto-detection. Either highlighting call may throw. */
  datatype Highlighter = Highlighter(
    getLanguage: string -> bool,
    highlight: (string, string) -> Try<string>,
    highlightAuto: string -> Try<AutoResult>)

  /** Where a block goes once its token is known. */
  datatype Route = Passthrough | Grammar(language: string) | Auto

  function RouteOf(hl: Highlighter, language: string): (r: Route)
    ensures r.Passthrough? <==> language == "mermaid"
    ensures r.Grammar? ==> r.language == language && language != "" && hl.getLanguage(language)
    ensures r.Auto? ==> language != "mermaid" && (language == "" || !hl.getLanguage(language))
  {
    if language == "mermaid" then Passthrough
    else if language != "" && hl.getLanguage(language) then Grammar(language)
    else Auto
  }

  /** What the override returns: the parser's own rendering of the block
      (`originalCode`), or highlighted markup with its detected language. */
  datatype CodeHtml = Original(code: CodeToken) | Highlighted(detected: string, markup: string)

  /** `renderer.code`. */
  function RenderCode(hl: Highlighter, code: CodeToken): (r: CodeHtml)
    ensures r.Original? ==> r.code == code
    ensures LanguageToken(code) == "mermaid" ==> r.Original?
    ensures r.Highlighted? ==> HasNoUpper(r.detected)
  {
    var language := LanguageToken(code);
    assert HasNoUpper(language) by {
      if language != "" {
        assert IsLowerLang(language);
      }
    }
    match RouteOf(hl, language)
    case Passthrough => Original(code)
    case Grammar(l) =>
      (match hl.highlight(code.text, l)
       case Thrown => Original(code)
       case Ok(markup) => Highlighted(l, markup))
    case Auto =>
      (match hl.highlightAuto(code.text)
       case Thrown => Original(code)
       case Ok(auto) =>
         var detected := match auto.language
           case Some(name) => ToLower(name)
           case None => language;
         Highlighted(detected, auto.value))
  }

  /** The detected language is the token itself when the token names a known
      grammar; otherwise it is the auto-detected grammar name, lower-cased,
      or the (possibly empty) token when auto-detection names none. */
  lemma DetectedLanguage(hl: Highlighter, code: CodeToken)
    requires RenderCode(hl, code).Highlighted?
    ensures var token := LanguageToken(code);
            var r := RenderCode(hl, code);
            if token != "" && hl.getLanguage(token) then
              hl.highlight(code.text, token) == Ok(r.markup) && r.detected == token
            else
              hl.highlightAuto(code.text).Ok? &&
              r.markup == hl.highlightAuto(code.text).value.value &&
              r.detected == (match hl.highlightAuto(code.text).value.language
                             case Some(name) => ToLower(name)
                             case None => token)
  {
  }

  /** The block falls back to the parser's own rendering exactly when its
      token is `mermaid` or the highlighting call it was routed to threw; in
      that case the block itself is handed on, so no content is lost. */
  lemma FallbackIff(hl: Highlighter, code: CodeToken)
    ensures var token := LanguageToken(code);
            RenderCode(hl, code) == Original(code) <==>
              (|| token == "mermaid"
               || (token != "" && hl.getLanguage(token) && hl.highlight(code.text, token).Thrown?)
               || (!(token != "" && hl.getLanguage(token)) && token != "mermaid"
                   && hl.highlightAuto(code.text).Thrown?))
  {
  }

  const CodeOpen: string := "<pre><code class=\""
  const CodeClose: string := "</code></pre>"

  /** The markup emitted for a highlighted block. */
  function HighlightedHtml(detected: string, markup: string): string {
    CodeOpen + ClassAttr(detected) + "\">" + markup + CodeClose
  }

  /** The class value starts right after `class="` and ends at the first
      quote after it, so the highlighted markup can never reach into the
      attribute; the markup sits whole between the tags. */
  lemma HighlightedAttrClosed(detected: string, markup: string)
    ensures var attr := ClassAttr(detected);
            var r := HighlightedHtml(detected, markup);
            var end := |CodeOpen| + |attr|;
            && |r| == end + 2 + |markup| + |CodeClose|
            && r[..|CodeOpen|] == CodeOpen
            && r[|CodeOpen|..end] == attr
            && (forall i :: |CodeOpen| <= i < end ==> r[i] != '"' && r[i] != '<' && r[i] != '>')
            && r[end] == '"' && r[end + 1] == '>'
            && r[end + 2..end + 2 + |markup|] == markup
            && r[end + 2 + |markup|..] == CodeClose
  {
    var attr := ClassAttr(detected);
    var r := HighlightedHtml(detected, markup);
    var end := |CodeOpen| + |attr|;
    var tail := "\">" + markup + CodeClose;
    assert r == CodeOpen + attr + tail;
    assert r[..|CodeOpen|] == CodeOpen;
    assert r[|CodeOpen|..end] == attr;
    assert r[end..] == tail;
    assert tail[2..2 + |markup|] == markup;
    assert tail[2 + |markup|..] == CodeClose;
  }

  /** The attribute built from a language without capitals is `hljs` or
      `hljs language-X` with X lower-case and whitelisted, and it contains
      no quote and no angle bracket. */
  lemma ClassAttrSafeFor(d: string)
    requires HasNoUpper(d)
    ensures var attr := ClassAttr(d);
            && (attr == "hljs" || (ClassLanguage(attr).Some? && attr == ClassPrefix + ClassLanguage(attr).value
                                   && IsLowerLang(ClassLanguage(attr).value)))
            && '"' !in attr && '<' !in attr && '>' !in attr
  {
    ClassAttrRoundTrip(d);
    var attr := ClassAttr(d);
    if IsSafeLang(d) {
      assert IsLowerLang(d) by {
        forall i | 0 <= i < |d|
          ensures ('0' <= d[i] <= '9') || ('a' <= d[i] <= 'z') || d[i] == '+' || d[i] == '-'
        {
          assert IsLangChar(d[i]) && !IsAsciiUpper(d[i]);
        }
      }
    }
    forall i | 0 <= i < |attr|
      ensures attr[i] != '"' && attr[i] != '<' && attr[i] != '>'
    {
      assert IsLangChar(attr[i]) || attr[i] == ' ';
    }
  }

  /** Injection safety: whatever the info string and whatever the
      highlighter returns, the class attribute of a highlighted block is
      `hljs` or `hljs language-X` with X a non-empty token over
      `[0-9a-z+-]`; in particular it holds no quote or angle bracket, so
      nothing from the markdown can close the attribute or the tag. */
  lemma ClassAttrIsSafe(hl: Highlighter, code: CodeToken)
    requires RenderCode(hl, code).Highlighted?
    ensures var attr := ClassAttr(RenderCode(hl, code).detected);
            && (attr == "hljs" || (ClassLanguage(attr).Some? && attr == ClassPrefix + ClassLanguage(attr).value
                                   && IsLowerLang(ClassLanguage(attr).value)))
            && '"' !in attr && '<' !in attr && '>' !in attr
  {
    ClassAttrSafeFor(RenderCode(hl, code).detected);
  }
}
