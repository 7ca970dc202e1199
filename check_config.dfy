/**
 * The decision made by scripts/check-config.js about the CSV address embedded
 * in index.html, without the file reading, the console output and the process
 * exit: the page text goes in, a failure with its reason or a pass with its
 * warnings comes out.
 */
module CheckConfig {
  import opened Wrappers
  import opened JsText

  datatype FailReason =
    | CsvUrlNotFound
    | PlaceholderUrl(url: string)
    | NotGoogleSheets(url: string)
    | MissingOutputCsv(url: string)

  datatype Warning = MissingGid | MissingSingle

  datatype Outcome = Fail(reason: FailReason) | Pass(url: string, warnings: seq<Warning>)

  /** The exit status of the script: 0 on a pass, 1 on any failure. */
  function ExitCode(o: Outcome): nat {
    if o.Pass? then 0 else 1
  }

  // ---------------------------------------------------------------------------
  // Extracting the address: /const\s+CSV_URL\s*=\s*"([^"]*)"\s*;/

  /** The first position at or after `i` that is not white space (or the end). */
  function SkipSpaces(s: string, i: nat): (j: nat)
    requires i <= |s|
    ensures i <= j <= |s|
    ensures j == |s| || !IsJsSpace(s[j])
    decreases |s| - i
  {
    if i < |s| && IsJsSpace(s[i]) then SkipSpaces(s, i + 1) else i
  }

  /** Everything `SkipSpaces` passes over is white space. */
  lemma {:induction false} SkippedAreSpaces(s: string, i: nat)
    requires i <= |s|
    ensures AllSpace(s[i..SkipSpaces(s, i)])
    decreases |s| - i
  {
    if i < |s| && IsJsSpace(s[i]) {
      SkippedAreSpaces(s, i + 1);
      var j := SkipSpaces(s, i);
      forall k | 0 <= k < j - i ensures IsJsSpace(s[i..j][k]) {
        if k > 0 {
          assert s[i..j][k] == s[i + 1..j][k - 1];
        }
      }
    }
  }

  /** The first double quote at or after `i` (or the end). */
  function NextQuote(s: string, i: nat): (j: nat)
    requires i <= |s|
    ensures i <= j <= |s|
    ensures forall k :: i <= k < j ==> s[k] != '"'
    ensures j == |s| || s[j] == '"'
    decreases |s| - i
  {
    if i < |s| && s[i] != '"' then NextQuote(s, i + 1) else i
  }

  /** `lit` occurs in `s` at position `i`. */
  predicate At(s: string, i: nat, lit: string) {
    i + |lit| <= |s| && s[i..i + |lit|] == lit
  }

  /** The text `const<ws1>CSV_URL<ws2>=<ws3>"<url>"<ws4>;` followed by `rest`. */
  function Declaration(ws1: string, ws2: string, ws3: string, url: string, ws4: string, rest: string): string {
    "const" + (ws1 + ("CSV_URL" + (ws2 + ("=" + (ws3 + ("\"" + (url + ("\"" + (ws4 + (";" + rest))))))))))
  }

  /**
   * The captured group of a match of the declaration pattern that begins at
   * position `i`, or nothing when no match begins there. Every quantifier of
   * the pattern is followed by a character it cannot consume, so a match at a
   * given position is unique and needs no backtracking.
   */
  function DeclarationAt(html: string, i: nat): (r: Option<string>)
    ensures r.Some? ==> forall k :: 0 <= k < |r.value| ==> r.value[k] != '"'
  {
    if At(html, i, "const") then AfterConst(html, i + 5) else None
  }

  /** `\s+CSV_URL` from position `a`, then the rest. */
  function AfterConst(html: string, a: nat): (r: Option<string>)
    requires a <= |html|
    ensures r.Some? ==> forall k :: 0 <= k < |r.value| ==> r.value[k] != '"'
  {
    var j := SkipSpaces(html, a);
    if j == a || !At(html, j, "CSV_URL") then None else AfterName(html, j + 7)
  }

  /** `\s*=` from position `a`, then the rest. */
  function AfterName(html: string, a: nat): (r: Option<string>)
    requires a <= |html|
    ensures r.Some? ==> forall k :: 0 <= k < |r.value| ==> r.value[k] != '"'
  {
    var k := SkipSpaces(html, a);
    if !At(html, k, "=") then None else AfterEquals(html, k + 1)
  }

  /** `\s*"` from position `a`, then the rest. */
  function AfterEquals(html: string, a: nat): (r: Option<string>)
    requires a <= |html|
    ensures r.Some? ==> forall k :: 0 <= k < |r.value| ==> r.value[k] != '"'
  {
    var l := SkipSpaces(html, a);
    if !At(html, l, "\"") then None else QuotedValue(html, l + 1)
  }

  /** `([^"]*)"\s*;` from position `a`: the group is everything up to the next quote. */
  function QuotedValue(html: string, a: nat): (r: Option<string>)
    requires a <= |html|
    ensures r.Some? ==> forall k :: 0 <= k < |r.value| ==> r.value[k] != '"'
  {
    var q := NextQuote(html, a);
    if q == |html| then None
    else if !At(html, SkipSpaces(html, q + 1), ";") then None
    else Some(html[a..q])
  }

  /** `h[a..]` is `x` followed by `y`: the two pieces sit at their positions in `h`. */
  lemma SplitAt(h: string, a: nat, x: string, y: string)
    requires a <= |h| && h[a..] == x + y
    ensures a + |x| <= |h| && h[a..a + |x|] == x && h[a + |x|..] == y
  {
    assert h[a..a + |x|] == h[a..][..|x|];
    assert h[a + |x|..] == h[a..][|x|..];
  }

  /** `h[a..]` starts with the character `c`, followed by `y`. */
  lemma CharAt(h: string, a: nat, c: char, y: string)
    requires a <= |h| && h[a..] == [c] + y
    ensures a < |h| && h[a] == c && At(h, a, [c]) && h[a + 1..] == y
  {
    SplitAt(h, a, [c], y);
    assert h[a] == h[a..][0];
  }

  // Each stage of the match from the facts it rests on.

  lemma QuotedStep(h: string, a: nat, q: nat, e: nat, url: string)
    requires a <= q < |h| && NextQuote(h, a) == q && SkipSpaces(h, q + 1) == e
    requires At(h, e, ";") && h[a..q] == url
    ensures QuotedValue(h, a) == Some(url)
  {
  }

  lemma AfterEqualsStep(h: string, a: nat, l: nat, url: string)
    requires a <= |h| && SkipSpaces(h, a) == l && At(h, l, "\"") && QuotedValue(h, l + 1) == Some(url)
    ensures AfterEquals(h, a) == Some(url)
  {
  }

  lemma AfterNameStep(h: string, a: nat, k: nat, url: string)
    requires a <= |h| && SkipSpaces(h, a) == k && At(h, k, "=") && AfterEquals(h, k + 1) == Some(url)
    ensures AfterName(h, a) == Some(url)
  {
  }

  lemma AfterConstStep(h: string, a: nat, j: nat, url: string)
    requires a <= |h| && SkipSpaces(h, a) == j != a && At(h, j, "CSV_URL")
    requires AfterName(h, j + 7) == Some(url)
    ensures AfterConst(h, a) == Some(url)
  {
  }

  // The match of a written-out declaration, one stage at a time.

  /** `h` holds the run `ws` at `a`, followed by the character `c`. */
  predicate Gap(h: string, a: nat, ws: string, c: char) {
    a + |ws| < |h| && h[a..a + |ws|] == ws && h[a + |ws|] == c
  }

  /** `h[a..]` is the run `ws`, the character `c`, then `t`. */
  lemma GapOf(h: string, a: nat, ws: string, c: char, t: string)
    requires a <= |h| && h[a..] == ws + ([c] + t)
    ensures Gap(h, a, ws, c) && h[a + |ws| + 1..] == t
  {
    SplitAt(h, a, ws, [c] + t);
    CharAt(h, a + |ws|, c, t);
  }

  /** `h` holds `url` at `u`, the closing quote, a run `ws4` and `;`. */
  predicate QuotedLaid(h: string, u: nat, url: string, ws4: string) {
    u + |url| <= |h| && h[u..u + |url|] == url
    && Gap(h, u + |url|, [], '"') && Gap(h, u + |url| + 1, ws4, ';')
  }

  /** `h` holds, from `k`, the run `ws2`, `=`, the run `ws3`, the opening quote and the quoted part. */
  predicate AssignLaid(h: string, k: nat, ws2: string, ws3: string, url: string, ws4: string) {
    Gap(h, k, ws2, '=') && Gap(h, k + |ws2| + 1, ws3, '"')
    && QuotedLaid(h, k + |ws2| + 1 + |ws3| + 1, url, ws4)
  }

  /** Where the pieces of a declaration that starts at `a` sit in `h`. */
  predicate LaidOut(h: string, a: nat, ws1: string, ws2: string, ws3: string, url: string, ws4: string) {
    At(h, a, "const")
    && a + 12 + |ws1| <= |h| && h[a + 5..a + 5 + |ws1|] == ws1
    && h[a + 5 + |ws1|..a + 12 + |ws1|] == "CSV_URL"
    && AssignLaid(h, a + 12 + |ws1|, ws2, ws3, url, ws4)
  }

  lemma QuotedSpaced(h: string, a: nat, url: string, ws4: string)
    requires AllSpace(ws4)
    requires forall k :: 0 <= k < |url| ==> url[k] != '"'
    requires QuotedLaid(h, a, url, ws4)
    ensures QuotedValue(h, a) == Some(url)
  {
    var q := a + |url|;
    QuoteAfter(h, a, url);
    SkipOver(h, q + 1, ws4, ';');
    assert h[q + 1 + |ws4|..q + 2 + |ws4|] == ";";
    QuotedStep(h, a, q, q + 1 + |ws4|, url);
  }

  lemma EqualsLiteral(h: string, a: nat, ws3: string, u: nat, url: string)
    requires AllSpace(ws3) && Gap(h, a, ws3, '"') && u == a + |ws3| + 1 && QuotedValue(h, u) == Some(url)
    ensures AfterEquals(h, a) == Some(url)
  {
    var l := a + |ws3|;
    SkipOver(h, a, ws3, '"');
    assert h[l..l + 1] == "\"";
    AfterEqualsStep(h, a, l, url);
  }

  lemma NameLiteral(h: string, a: nat, ws2: string, l: nat, url: string)
    requires AllSpace(ws2) && Gap(h, a, ws2, '=') && l == a + |ws2| + 1 && AfterEquals(h, l) == Some(url)
    ensures AfterName(h, a) == Some(url)
  {
    var k := a + |ws2|;
    SkipOver(h, a, ws2, '=');
    assert h[k..k + 1] == "=";
    AfterNameStep(h, a, k, url);
  }

  /** Everything after the name is matched from `k`. */
  lemma AssignMatches(h: string, k: nat, ws2: string, ws3: string, url: string, ws4: string)
    requires AllSpace(ws2) && AllSpace(ws3) && AllSpace(ws4)
    requires forall i :: 0 <= i < |url| ==> url[i] != '"'
    requires AssignLaid(h, k, ws2, ws3, url, ws4)
    ensures AfterName(h, k) == Some(url)
  {
    var l := k + |ws2| + 1;
    var u := l + |ws3| + 1;
    QuotedSpaced(h, u, url, ws4);
    EqualsLiteral(h, l, ws3, u, url);
    NameLiteral(h, k, ws2, l, url);
  }

  lemma ConstLiteral(h: string, a: nat, ws1: string, k: nat, url: string)
    requires ws1 != [] && AllSpace(ws1)
    requires a + |ws1| + 7 <= |h| && h[a..a + |ws1|] == ws1 && h[a + |ws1|..a + |ws1| + 7] == "CSV_URL"
    requires k == a + |ws1| + 7 && AfterName(h, k) == Some(url)
    ensures AfterConst(h, a) == Some(url)
  {
    var j := a + |ws1|;
    assert h[j] == h[j..j + 7][0] == 'C';
    SkipOver(h, a, ws1, 'C');
    AfterConstStep(h, a, j, url);
  }

  /** `h[a..]` is `const`, the run `ws1`, `CSV_URL`, then `t`. */
  lemma ConstOf(h: string, a: nat, ws1: string, t: string)
    requires a <= |h| && h[a..] == "const" + (ws1 + ("CSV_URL" + t))
    ensures At(h, a, "const")
    ensures a + 12 + |ws1| <= |h| && h[a + 5..a + 5 + |ws1|] == ws1
    ensures h[a + 5 + |ws1|..a + 12 + |ws1|] == "CSV_URL" && h[a + 12 + |ws1|..] == t
  {
    SplitAt(h, a, "const", ws1 + ("CSV_URL" + t));
    SplitAt(h, a + 5, ws1, "CSV_URL" + t);
    SplitAt(h, a + 5 + |ws1|, "CSV_URL", t);
  }

  /** The quoted text, its closing quote and the `;` that ends the statement. */
  lemma QuotedShape(h: string, u: nat, url: string, ws4: string, rest: string)
    requires u <= |h| && h[u..] == url + ("\"" + (ws4 + (";" + rest)))
    ensures QuotedLaid(h, u, url, ws4)
  {
    SplitAt(h, u, url, "\"" + (ws4 + (";" + rest)));
    GapOf(h, u + |url|, [], '"', ws4 + (";" + rest));
    GapOf(h, u + |url| + 1, ws4, ';', rest);
  }

  /** The `=` and the opening quote after the name, each after its own run of white space. */
  lemma AssignShape(h: string, k: nat, ws2: string, ws3: string, url: string, ws4: string, rest: string)
    requires k <= |h| && h[k..] == ws2 + ("=" + (ws3 + ("\"" + (url + ("\"" + (ws4 + (";" + rest)))))))
    ensures AssignLaid(h, k, ws2, ws3, url, ws4)
  {
    var t4 := url + ("\"" + (ws4 + (";" + rest)));
    GapOf(h, k, ws2, '=', ws3 + ("\"" + t4));
    GapOf(h, k + |ws2| + 1, ws3, '"', t4);
    QuotedShape(h, k + |ws2| + 1 + |ws3| + 1, url, ws4, rest);
  }

  lemma DeclarationShape(
    h: string, a: nat, ws1: string, ws2: string, ws3: string, url: string, ws4: string, rest: string)
    requires a <= |h| && h[a..] == Declaration(ws1, ws2, ws3, url, ws4, rest)
    ensures LaidOut(h, a, ws1, ws2, ws3, url, ws4)
  {
    ConstOf(h, a, ws1, ws2 + ("=" + (ws3 + ("\"" + (url + ("\"" + (ws4 + (";" + rest))))))));
    AssignShape(h, a + 12 + |ws1|, ws2, ws3, url, ws4, rest);
  }

  /** A declaration laid out at `a` is matched there. */
  lemma LaidOutMatches(h: string, a: nat, ws1: string, ws2: string, ws3: string, url: string, ws4: string)
    requires ws1 != [] && AllSpace(ws1) && AllSpace(ws2) && AllSpace(ws3) && AllSpace(ws4)
    requires forall k :: 0 <= k < |url| ==> url[k] != '"'
    requires LaidOut(h, a, ws1, ws2, ws3, url, ws4)
    ensures DeclarationAt(h, a) == Some(url)
  {
    AssignMatches(h, a + 12 + |ws1|, ws2, ws3, url, ws4);
    ConstLiteral(h, a + 5, ws1, a + 12 + |ws1|, url);
  }

  /** Skipping white space from `i` stops right after the run `ws` when `c` follows it. */
  lemma SkipOver(s: string, i: nat, ws: string, c: char)
    requires AllSpace(ws) && !IsJsSpace(c)
    requires i + |ws| < |s| && s[i..i + |ws|] == ws && s[i + |ws|] == c
    ensures SkipSpaces(s, i) == i + |ws|
    decreases |ws|
  {
    if ws != [] {
      assert s[i] == ws[0];
      assert s[i + 1..i + 1 + |ws[1..]|] == ws[1..];
      SkipOver(s, i + 1, ws[1..], c);
    }
  }

  lemma QuoteAfter(s: string, i: nat, url: string)
    requires forall k :: 0 <= k < |url| ==> url[k] != '"'
    requires i + |url| < |s| && s[i..i + |url|] == url && s[i + |url|] == '"'
    ensures NextQuote(s, i) == i + |url|
    decreases |url|
  {
    if url != [] {
      assert s[i] == url[0];
      assert s[i + 1..i + 1 + |url[1..]|] == url[1..];
      QuoteAfter(s, i + 1, url[1..]);
    }
  }

  /** The leftmost match at or after `i`: its position and its group. */
  function FirstDeclarationFrom(html: string, i: nat): (r: Option<(nat, string)>)
    requires i <= |html|
    ensures r.Some? ==> i <= r.value.0 <= |html| && DeclarationAt(html, r.value.0) == Some(r.value.1)
    ensures r.Some? ==> forall p :: i <= p < r.value.0 ==> DeclarationAt(html, p).None?
    ensures r.None? ==> forall p :: i <= p <= |html| ==> DeclarationAt(html, p).None?
    decreases |html| - i
  {
    var here := DeclarationAt(html, i);
    if here.Some? then Some((i, here.value))
    else if i == |html| then None
    else
      var r := FirstDeclarationFrom(html, i + 1);
      assert r.Some? ==> forall p :: i <= p < r.value.0 ==> DeclarationAt(html, p).None? by {
        if r.Some? {
          assert forall p :: i + 1 <= p < r.value.0 ==> DeclarationAt(html, p).None?;
        }
      }
      r
  }

  /** `html.match(...)[1]`: the group of the leftmost match, if any. */
  function FindCsvUrl(html: string): Option<string> {
    match FirstDeclarationFrom(html, 0)
    case Some((_, u)) => Some(u)
    case None => None
  }

  /** A page that begins with the declaration yields its quoted text. */
  lemma FindLeadingDeclaration(
    ws1: string, ws2: string, ws3: string, url: string, ws4: string, rest: string)
    requires ws1 != [] && AllSpace(ws1) && AllSpace(ws2) && AllSpace(ws3) && AllSpace(ws4)
    requires forall k :: 0 <= k < |url| ==> url[k] != '"'
    ensures FindCsvUrl(Declaration(ws1, ws2, ws3, url, ws4, rest)) == Some(url)
  {
    var h := Declaration(ws1, ws2, ws3, url, ws4, rest);
    assert h[0..] == h;
    DeclarationShape(h, 0, ws1, ws2, ws3, url, ws4, rest);
    LaidOutMatches(h, 0, ws1, ws2, ws3, url, ws4);
  }

  // ---------------------------------------------------------------------------
  // The language of the extraction pattern, and the scan against it

  /**
   * A match of the declaration pattern begins at `p` in `h` and captures
   * `url`: from `p` on, `h` is `const`, at least one white-space character,
   * `CSV_URL`, white space, `=`, white space, the quote-free `url` between
   * double quotes, white space and `;`, followed by anything.
   */
  ghost predicate IsDeclaration(h: string, p: nat, url: string) {
    p <= |h| && (forall k :: 0 <= k < |url| ==> url[k] != '"')
    && exists ws1, ws2, ws3, ws4, rest ::
         ws1 != [] && AllSpace(ws1) && AllSpace(ws2) && AllSpace(ws3) && AllSpace(ws4)
         && h[p..] == Declaration(ws1, ws2, ws3, url, ws4, rest)
  }

  /** `h[a..]` is `h[a..b]` followed by `h[b..]`. */
  lemma JoinAt(h: string, a: nat, b: nat)
    requires a <= b <= |h|
    ensures h[a..] == h[a..b] + h[b..]
  {
  }

  /** `h[a..]` is the character `c` at `a` followed by `h[a + 1..]`. */
  lemma CharJoin(h: string, a: nat, c: char)
    requires a < |h| && h[a] == c
    ensures h[a..] == [c] + h[a + 1..]
  {
  }

  // Each stage of the scan, read backwards: what it accepted is the text the pattern describes.

  /** The text from `a` around the closing quote at `q` and the `;` at `e`. */
  lemma QuotedSplit(h: string, a: nat, q: nat, e: nat)
    requires a <= q < e < |h| && h[q] == '"' && h[e] == ';'
    ensures h[a..] == h[a..q] + ("\"" + (h[q + 1..e] + (";" + h[e + 1..])))
  {
    JoinAt(h, a, q);
    CharJoin(h, q, '"');
    JoinAt(h, q + 1, e);
    CharJoin(h, e, ';');
  }

  /** The text from `a` around the single character `c` at `b`, with `t` after it. */
  lemma MarkSplit(h: string, a: nat, b: nat, c: char, t: string)
    requires a <= b < |h| && h[b] == c && h[b + 1..] == t
    ensures h[a..] == h[a..b] + ([c] + t)
  {
    JoinAt(h, a, b);
    CharJoin(h, b, c);
  }

  /** The text from `a` around `CSV_URL` at `j`, with `t` after it. */
  lemma NameSplit(h: string, a: nat, j: nat, t: string)
    requires a <= j && j + 7 <= |h| && h[j..j + 7] == "CSV_URL" && h[j + 7..] == t
    ensures h[a..] == h[a..j] + ("CSV_URL" + t)
  {
    JoinAt(h, a, j);
    JoinAt(h, j, j + 7);
  }

  // Each stage of the scan, read backwards: what it accepted is the text the pattern describes.

  lemma QuotedValueSound(h: string, a: nat, url: string) returns (ws4: string, rest: string)
    requires a <= |h| && QuotedValue(h, a) == Some(url)
    ensures AllSpace(ws4) && h[a..] == url + ("\"" + (ws4 + (";" + rest)))
  {
    var q := NextQuote(h, a);
    var e := SkipSpaces(h, q + 1);
    SkippedAreSpaces(h, q + 1);
    ws4, rest := h[q + 1..e], h[e + 1..];
    assert h[e] == h[e..e + 1][0];
    QuotedSplit(h, a, q, e);
  }

  lemma AfterEqualsSound(h: string, a: nat, url: string) returns (ws3: string, ws4: string, rest: string)
    requires a <= |h| && AfterEquals(h, a) == Some(url)
    ensures AllSpace(ws3) && AllSpace(ws4)
    ensures h[a..] == ws3 + ("\"" + (url + ("\"" + (ws4 + (";" + rest)))))
  {
    var l := SkipSpaces(h, a);
    SkippedAreSpaces(h, a);
    ws3 := h[a..l];
    assert h[l] == h[l..l + 1][0];
    ws4, rest := QuotedValueSound(h, l + 1, url);
    MarkSplit(h, a, l, '"', url + ("\"" + (ws4 + (";" + rest))));
  }

  lemma AfterNameSound(h: string, a: nat, url: string)
    returns (ws2: string, ws3: string, ws4: string, rest: string)
    requires a <= |h| && AfterName(h, a) == Some(url)
    ensures AllSpace(ws2) && AllSpace(ws3) && AllSpace(ws4)
    ensures h[a..] == ws2 + ("=" + (ws3 + ("\"" + (url + ("\"" + (ws4 + (";" + rest)))))))
  {
    var k := SkipSpaces(h, a);
    SkippedAreSpaces(h, a);
    ws2 := h[a..k];
    assert h[k] == h[k..k + 1][0];
    ws3, ws4, rest := AfterEqualsSound(h, k + 1, url);
    MarkSplit(h, a, k, '=', ws3 + ("\"" + (url + ("\"" + (ws4 + (";" + rest))))));
  }

  lemma AfterConstSound(h: string, a: nat, url: string)
    returns (ws1: string, ws2: string, ws3: string, ws4: string, rest: string)
    requires a <= |h| && AfterConst(h, a) == Some(url)
    ensures ws1 != [] && AllSpace(ws1) && AllSpace(ws2) && AllSpace(ws3) && AllSpace(ws4)
    ensures h[a..] == ws1 + ("CSV_URL" + (ws2 + ("=" + (ws3 + ("\"" + (url + ("\"" + (ws4 + (";" + rest)))))))))
  {
    var j := SkipSpaces(h, a);
    SkippedAreSpaces(h, a);
    ws1 := h[a..j];
    ws2, ws3, ws4, rest := AfterNameSound(h, j + 7, url);
    NameSplit(h, a, j, ws2 + ("=" + (ws3 + ("\"" + (url + ("\"" + (ws4 + (";" + rest))))))));
  }

  /** Whatever the scan accepts at `i` is a declaration there. */
  lemma DeclarationAtSound(h: string, i: nat)
    requires DeclarationAt(h, i).Some?
    ensures IsDeclaration(h, i, DeclarationAt(h, i).value)
  {
    var url := DeclarationAt(h, i).value;
    var ws1, ws2, ws3, ws4, rest := AfterConstSound(h, i + 5, url);
    JoinAt(h, i, i + 5);
    assert h[i..] == Declaration(ws1, ws2, ws3, url, ws4, rest);
  }

  /** Every declaration at `i` is accepted there, with its own quoted text. */
  lemma DeclarationAtComplete(h: string, i: nat, url: string)
    requires IsDeclaration(h, i, url)
    ensures DeclarationAt(h, i) == Some(url)
  {
    var ws1, ws2, ws3, ws4, rest :| ws1 != [] && AllSpace(ws1) && AllSpace(ws2) && AllSpace(ws3)
      && AllSpace(ws4) && h[i..] == Declaration(ws1, ws2, ws3, url, ws4, rest);
    DeclarationShape(h, i, ws1, ws2, ws3, url, ws4, rest);
    LaidOutMatches(h, i, ws1, ws2, ws3, url, ws4);
  }

  /** The scan at one position recognises exactly the language of the pattern. */
  lemma DeclarationAtIff(h: string, i: nat, url: string)
    ensures DeclarationAt(h, i) == Some(url) <==> IsDeclaration(h, i, url)
  {
    if DeclarationAt(h, i) == Some(url) {
      DeclarationAtSound(h, i);
    }
    if IsDeclaration(h, i, url) {
      DeclarationAtComplete(h, i, url);
    }
  }

  /** The address found is the one captured by the leftmost declaration of the page. */
  lemma FindCsvUrlSound(html: string, url: string)
    requires FindCsvUrl(html) == Some(url)
    ensures exists p: nat :: (IsDeclaration(html, p, url)
      && forall q: nat, v :: q < p ==> !IsDeclaration(html, q, v))
  {
    var p := FirstDeclarationFrom(html, 0).value.0;
    DeclarationAtIff(html, p, url);
    forall q: nat, v | q < p
      ensures !IsDeclaration(html, q, v)
    {
      DeclarationAtIff(html, q, v);
    }
  }

  /** Nothing is found exactly when the page holds no declaration anywhere. */
  lemma FindCsvUrlNone(html: string)
    ensures FindCsvUrl(html).None? <==> forall p: nat, v :: !IsDeclaration(html, p, v)
  {
    if FindCsvUrl(html).None? {
      forall p: nat, v
        ensures !IsDeclaration(html, p, v)
      {
        DeclarationAtIff(html, p, v);
      }
    } else {
      FindCsvUrlSound(html, FindCsvUrl(html).value);
    }
  }

  /** The script stops with "could not find CSV_URL" exactly when the page holds no declaration. */
  lemma NotFoundIff(html: string)
    ensures Validate(html) == Fail(CsvUrlNotFound) <==> forall p: nat, v :: !IsDeclaration(html, p, v)
  {
    FindCsvUrlNone(html);
  }

  // ---------------------------------------------------------------------------
  // The tests on the trimmed address

  const Placeholders: set<string> :=
    {"", "YOUR_CSV_URL_HERE", "PASTE_YOUR_PUBLIC_EVENTS_CSV_URL_HERE", "PASTE_YOUR_CSV_URL_HERE"}

  predicate LooksLikeGoogleSheets(url: string) {
    "https://docs.google.com/spreadsheets/" <= url || "http://docs.google.com/spreadsheets/" <= url
  }

  /** `\b` right after a word character at `e - 1`: the end, or a non-word character at `e`. */
  predicate BoundaryAt(s: string, e: nat) {
    e == |s| || (e < |s| && !IsWordChar(s[e]))
  }

  /** `[?&]<lit>\b` matches at position `p` (for a `lit` ending in a word character). */
  predicate ParamAt(s: string, p: nat, lit: string) {
    p + 1 + |lit| <= |s| && (s[p] == '?' || s[p] == '&')
    && s[p + 1..p + 1 + |lit|] == lit && BoundaryAt(s, p + 1 + |lit|)
  }

  function ParamFrom(s: string, i: nat, lit: string): (r: bool)
    requires i <= |s|
    ensures r <==> exists p :: i <= p < |s| && ParamAt(s, p, lit)
    decreases |s| - i
  {
    if i == |s| then false
    else ParamAt(s, i, lit) || ParamFrom(s, i + 1, lit)
  }

  /** `/[?&]output=csv\b/.test(url)`, and likewise for `single=true`. */
  function HasParam(s: string, lit: string): (r: bool)
    ensures r <==> exists p :: 0 <= p < |s| && ParamAt(s, p, lit)
  {
    ParamFrom(s, 0, lit)
  }

  /** The end of the run of digits that starts at `i`. */
  function DigitsEnd(s: string, i: nat): (e: nat)
    requires i <= |s|
    ensures i <= e <= |s|
    ensures forall k :: i <= k < e ==> IsDigit(s[k])
    ensures e == |s| || !IsDigit(s[e])
    decreases |s| - i
  {
    if i < |s| && IsDigit(s[i]) then DigitsEnd(s, i + 1) else i
  }

  /**
   * `[?&]gid=\d+\b` matches at position `p`: a backtracking `\d+` can only end
   * at the end of the digit run, since there is no boundary between two digits.
   */
  predicate GidAt(s: string, p: nat) {
    p + 5 <= |s| && (s[p] == '?' || s[p] == '&') && s[p + 1..p + 5] == "gid="
    && DigitsEnd(s, p + 5) > p + 5 && BoundaryAt(s, DigitsEnd(s, p + 5))
  }

  function GidFrom(s: string, i: nat): (r: bool)
    requires i <= |s|
    ensures r <==> exists p :: i <= p < |s| && GidAt(s, p)
    decreases |s| - i
  {
    if i == |s| then false
    else GidAt(s, i) || GidFrom(s, i + 1)
  }

  /** An occurrence of `?lit` or `&lit` followed by the end or a non-word character is found. */
  lemma HasParamWhenPresent(pre: string, sep: char, lit: string, post: string)
    requires sep == '?' || sep == '&'
    requires post == [] || !IsWordChar(post[0])
    ensures HasParam(pre + [sep] + lit + post, lit)
  {
    var s := pre + [sep] + lit + post;
    assert s[|pre| + 1..|pre| + 1 + |lit|] == lit;
    assert ParamAt(s, |pre|, lit);
  }

  /** An occurrence followed by a word character does not count: `output=csvx` is not `output=csv`. */
  lemma ParamNeedsBoundary(s: string, p: nat, lit: string)
    requires p + 1 + |lit| < |s| && IsWordChar(s[p + 1 + |lit|])
    ensures !ParamAt(s, p, lit)
  {
  }

  function HasGid(s: string): (r: bool)
    ensures r <==> exists p :: 0 <= p < |s| && GidAt(s, p)
  {
    GidFrom(s, 0)
  }

  /** A warning for each recommended parameter that is missing, `gid` first. */
  function Warnings(url: string): (r: seq<Warning>)
    ensures MissingGid in r <==> !HasGid(url)
    ensures MissingSingle in r <==> !HasParam(url, "single=true")
    ensures |r| <= 2 && (|r| == 2 ==> r == [MissingGid, MissingSingle])
  {
    (if HasGid(url) then [] else [MissingGid]) + (if HasParam(url, "single=true") then [] else [MissingSingle])
  }

  // ---------------------------------------------------------------------------
  // The script

  /**
   * The script's decision. The checks run in order (address found, not a
   * placeholder, a Google Sheets address, `output=csv` present) and the first
   * that fails decides; the `gid` and `single` tests only produce warnings.
   */
  function Validate(html: string): (r: Outcome)
    ensures r == Fail(CsvUrlNotFound) <==> FindCsvUrl(html).None?
    ensures r.Fail? && r.reason.PlaceholderUrl? <==>
      FindCsvUrl(html).Some? && Trim(FindCsvUrl(html).value) in Placeholders
    ensures r.Fail? && r.reason.NotGoogleSheets? <==>
      FindCsvUrl(html).Some? && Trim(FindCsvUrl(html).value) !in Placeholders
      && !LooksLikeGoogleSheets(Trim(FindCsvUrl(html).value))
    ensures r.Fail? && r.reason.MissingOutputCsv? <==>
      FindCsvUrl(html).Some? && Trim(FindCsvUrl(html).value) !in Placeholders
      && LooksLikeGoogleSheets(Trim(FindCsvUrl(html).value))
      && !HasParam(Trim(FindCsvUrl(html).value), "output=csv")
    ensures r.Pass? ==> r.url == Trim(FindCsvUrl(html).value)
    ensures r.Pass? ==> r.warnings == Warnings(r.url)
  {
    match FindCsvUrl(html)
    case None => Fail(CsvUrlNotFound)
    case Some(raw) =>
      var url := Trim(raw);
      if url in Placeholders then Fail(PlaceholderUrl(url))
      else if !LooksLikeGoogleSheets(url) then Fail(NotGoogleSheets(url))
      else if !HasParam(url, "output=csv") then Fail(MissingOutputCsv(url))
      else Pass(url, Warnings(url))
  }

  /** The script exits with status 0 exactly when all four checks pass. */
  lemma ExitZeroIff(html: string)
    ensures ExitCode(Validate(html)) == 0 <==>
      FindCsvUrl(html).Some? && Trim(FindCsvUrl(html).value) !in Placeholders
      && LooksLikeGoogleSheets(Trim(FindCsvUrl(html).value))
      && HasParam(Trim(FindCsvUrl(html).value), "output=csv")
  {
  }

  lemma PlaceholderTrimmed(url: string)
    requires url in Placeholders
    ensures Trimmed(url)
  {
  }

  /** Every placeholder address, however padded inside its quotes, is refused before the other checks run. */
  lemma PlaceholderRefused(
    ws1: string, ws2: string, ws3: string, pad1: string, url: string, pad2: string, ws4: string, rest: string)
    requires ws1 != [] && AllSpace(ws1) && AllSpace(ws2) && AllSpace(ws3) && AllSpace(ws4)
    requires AllSpace(pad1) && AllSpace(pad2) && url in Placeholders
    requires forall k :: 0 <= k < |pad1 + url + pad2| ==> (pad1 + url + pad2)[k] != '"'
    ensures Validate(Declaration(ws1, ws2, ws3, pad1 + url + pad2, ws4, rest)) == Fail(PlaceholderUrl(url))
  {
    FindLeadingDeclaration(ws1, ws2, ws3, pad1 + url + pad2, ws4, rest);
    PlaceholderTrimmed(url);
    TrimPadded(pad1, url, pad2);
  }
}
