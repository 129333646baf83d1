/**
  The Blade directive service provider: every `extend*` method is a
  transform from the directive's raw expression text to a template
  fragment, every `if*` method a condition on an evaluated template value,
  and `boot` derives each directive's name from its method's name.
  Emitted PHP (`mix`, `route`, `url`, `asset`, `public_path`, the `for`
  loop) is opaque text here.
 */
module BladeDirectives {
  import opened Wrappers
  import opened PhpStrings

  // ---------------------------------------------------------------------
  // Helpers of the provider

  /** `stripQuotes`: `str_replace("'", '', $expression)`. */
  function StripQuotes(e: string): (r: string)
    ensures '\'' !in r
    ensures forall c :: c != '\'' ==> multiset(r)[c] == multiset(e)[c]
    ensures |r| == |e| - multiset(e)['\'']
  {
    RemoveCharFacts(e, '\'');
    RemoveAll(e, "'")
  }

  /** Quote stripping keeps the other characters in order: it distributes over concatenation. */
  lemma StripQuotesAppend(a: string, b: string)
    ensures StripQuotes(a + b) == StripQuotes(a) + StripQuotes(b)
  {
    RemoveCharAppend(a, b, '\'');
  }

  /** Quote stripping removes a quote and keeps any other single character. */
  lemma StripQuotesChar(c: char)
    ensures StripQuotes([c]) == if c == '\'' then [] else [c]
  {
  }

  /** Quote stripping is idempotent, and leaves quote-free text alone. */
  lemma StripQuotesIdempotent(e: string)
    ensures StripQuotes(StripQuotes(e)) == StripQuotes(e)
    ensures '\'' !in e ==> StripQuotes(e) == e
  {
    QuoteFreeUnchanged(StripQuotes(e));
    if '\'' !in e {
      QuoteFreeUnchanged(e);
    }
  }

  lemma QuoteFreeUnchanged(e: string)
    requires '\'' !in e
    ensures StripQuotes(e) == e
  {
    OccursChar(e, '\'');
    RemoveAllUnchanged(e, "'");
  }

  /**
    `multipleArgs`: the expression split at every comma, each piece trimmed
    of PHP's default white space. One argument more than there are commas.
   */
  function MultipleArgs(e: string): (args: seq<string>)
    ensures |args| == multiset(e)[','] + 1
    ensures forall i :: 0 <= i < |args| ==> ',' !in args[i] && IsTrimmed(args[i])
  {
    var parts := Explode(e, ',');
    ExplodeFacts(e, ',');
    seq(|parts|, i requires 0 <= i < |parts| => Trim(parts[i]))
  }

  /**
    Arguments that are already trimmed and comma-free come back unchanged
    from the comma-joined text, even with white space around each one.
   */
  lemma {:induction false} MultipleArgsJoin(args: seq<string>, pads: seq<(string, string)>)
    requires |args| >= 1 && |pads| == |args|
    requires forall i :: 0 <= i < |args| ==> ',' !in args[i] && IsTrimmed(args[i])
    requires forall i :: 0 <= i < |pads| ==>
      AllTrimSpace(pads[i].0) && AllTrimSpace(pads[i].1) && ',' !in pads[i].0 && ',' !in pads[i].1
    ensures MultipleArgs(Join(Padded(args, pads), ',')) == args
  {
    var padded := Padded(args, pads);
    forall i | 0 <= i < |padded| ensures ',' !in padded[i] {
      assert padded[i] == pads[i].0 + args[i] + pads[i].1;
    }
    ExplodeJoin(padded, ',');
    var r := MultipleArgs(Join(padded, ','));
    forall i | 0 <= i < |args| ensures r[i] == args[i] {
      TrimExact(pads[i].0, args[i], pads[i].1);
    }
  }

  /** Each argument with its own white space before and after it. */
  function Padded(args: seq<string>, pads: seq<(string, string)>): (r: seq<string>)
    requires |pads| == |args|
    ensures |r| == |args|
    ensures forall i :: 0 <= i < |args| ==> r[i] == pads[i].0 + args[i] + pads[i].1
  {
    seq(|args|, i requires 0 <= i < |args| => pads[i].0 + args[i] + pads[i].1)
  }

  // ---------------------------------------------------------------------
  // Fixed templates: a prefix, the (possibly transformed) expression, a suffix

  /** Recovers the middle of `r` when `r` starts with `pre` and ends with `post`. */
  function Unwrap(pre: string, post: string, r: string): Option<string> {
    if |pre| + |post| <= |r| && r[..|pre|] == pre && r[|r| - |post|..] == post
    then Some(r[|pre|..|r| - |post|])
    else None
  }

  /** `pre`, then `e` verbatim, then `post`: `Unwrap` gives `e` back. */
  function Enclose(pre: string, e: string, post: string): (r: string)
    ensures |r| == |pre| + |e| + |post|
    ensures Unwrap(pre, post, r) == Some(e)
  {
    var r := pre + e + post;
    assert r[..|pre|] == pre && r[|r| - |post|..] == post && r[|pre|..|r| - |post|] == e;
    r
  }

  /** Whatever `Unwrap` accepts is exactly a prefix, a middle and a suffix. */
  lemma UnwrapSound(pre: string, post: string, r: string)
    requires Unwrap(pre, post, r).Some?
    ensures r == Enclose(pre, Unwrap(pre, post, r).value, post)
  {
  }

  /** A fixed template never sends two expressions to the same fragment. */
  lemma EncloseInjective(pre: string, post: string, a: string, b: string)
    requires Enclose(pre, a, post) == Enclose(pre, b, post)
    ensures a == b
  {
  }

  // ---------------------------------------------------------------------
  // Suffixes that select a tag

  const CssSuffix := ".css'"
  const JsSuffix := ".js'"
  const HtmlSuffix := ".html'"

  /** No expression ends in two of the three quoted extensions, so the order of the tests is immaterial. */
  lemma SuffixesExclusive(e: string)
    ensures !(EndsWith(e, CssSuffix) && EndsWith(e, JsSuffix))
    ensures !(EndsWith(e, CssSuffix) && EndsWith(e, HtmlSuffix))
    ensures !(EndsWith(e, JsSuffix) && EndsWith(e, HtmlSuffix))
  {
    if EndsWith(e, CssSuffix) {
      assert e[|e| - 3] == e[|e| - |CssSuffix|..][2] == 's';
      assert e[|e| - 2] == e[|e| - |CssSuffix|..][3] == 's';
    }
    if EndsWith(e, JsSuffix) {
      assert e[|e| - 3] == e[|e| - |JsSuffix|..][1] == 'j';
      assert e[|e| - 2] == e[|e| - |JsSuffix|..][2] == 's';
    }
    if EndsWith(e, HtmlSuffix) {
      assert e[|e| - 2] == e[|e| - |HtmlSuffix|..][4] == 'l';
    }
  }

  // ---------------------------------------------------------------------
  // @mix

  // Each prefix is written as its opening tag followed by the rest.
  const MixCssOpen := "<link" + " rel=\"stylesheet\" href=\"<?php echo mix("
  const MixCssClose := ") ?>\">"
  const MixJsOpen := "<script" + " src=\"<?php echo mix("
  const MixJsClose := ") ?>\"></script>"
  const MixEchoOpen := "<?php" + " echo mix("
  const MixEchoClose := "); ?>"

  /**
    `extendMix`: a stylesheet `<link>` for an expression ending in `.css'`,
    a `<script>` for one ending in `.js'`, a bare `mix` echo otherwise; in
    every case the expression is passed to `mix` verbatim.
   */
  function Mix(e: string): (r: string)
    ensures EndsWith(e, CssSuffix) ==> Unwrap(MixCssOpen, MixCssClose, r) == Some(e)
    ensures EndsWith(e, JsSuffix) ==> Unwrap(MixJsOpen, MixJsClose, r) == Some(e)
    ensures !EndsWith(e, CssSuffix) && !EndsWith(e, JsSuffix) ==> Unwrap(MixEchoOpen, MixEchoClose, r) == Some(e)
  {
    SuffixesExclusive(e);
    if EndsWith(e, CssSuffix) then Enclose(MixCssOpen, e, MixCssClose)
    else if EndsWith(e, JsSuffix) then Enclose(MixJsOpen, e, MixJsClose)
    else Enclose(MixEchoOpen, e, MixEchoClose)
  }

  /** The fragment's opening tag tells which branch was taken, in both directions. */
  lemma MixDispatch(e: string)
    ensures StartsWith(Mix(e), "<link") <==> EndsWith(e, CssSuffix)
    ensures StartsWith(Mix(e), "<script") <==> EndsWith(e, JsSuffix)
    ensures StartsWith(Mix(e), "<?php") <==> !EndsWith(e, CssSuffix) && !EndsWith(e, JsSuffix)
  {
    SuffixesExclusive(e);
    var r := Mix(e);
    if EndsWith(e, CssSuffix) {
      OpensWith(MixCssOpen, e, MixCssClose, "<link");
      NotStartsWith(r, "<script", 1);
      NotStartsWith(r, "<?php", 1);
    } else if EndsWith(e, JsSuffix) {
      OpensWith(MixJsOpen, e, MixJsClose, "<script");
      NotStartsWith(r, "<link", 1);
      NotStartsWith(r, "<?php", 1);
    } else {
      OpensWith(MixEchoOpen, e, MixEchoClose, "<?php");
      NotStartsWith(r, "<link", 1);
      NotStartsWith(r, "<script", 1);
    }
  }

  /** A fragment built from a template opens the way the template's prefix does. */
  lemma OpensWith(pre: string, e: string, post: string, tag: string)
    requires 2 <= |tag| && StartsWith(pre, tag)
    ensures StartsWith(Enclose(pre, e, post), tag)
    ensures Enclose(pre, e, post)[1] == tag[1]
  {
  }

  // ---------------------------------------------------------------------
  // @style / @endstyle, @script / @endscript

  /** PHP's `empty()` on a string: the empty string and `"0"`. */
  predicate PhpEmpty(e: string) {
    e == "" || e == "0"
  }

  const StyleOpen := "<style>"
  const StyleLinkOpen := "<link rel=\"stylesheet\" href=\""
  const StyleLinkClose := "\">"
  const ScriptOpen := "<script>"
  const ScriptSrcOpen := "<script src=\""
  const ScriptSrcClose := "\"></script>"

  /**
    `extendStyle`: the bare `<style>` tag for an empty expression; otherwise
    a stylesheet `<link>` whose `href` is the expression without quotes.
   */
  function Style(e: string): (r: string)
    ensures PhpEmpty(e) ==> r == StyleOpen
    ensures !PhpEmpty(e) ==> Unwrap(StyleLinkOpen, StyleLinkClose, r) == Some(StripQuotes(e))
  {
    if !PhpEmpty(e) then Enclose(StyleLinkOpen, StripQuotes(e), StyleLinkClose) else StyleOpen
  }

  /** `extendEndStyle`: ignores its expression. */
  function EndStyle(e: string): (r: string)
    ensures r == "</" + StyleOpen[1..]
  {
    "</style>"
  }

  /**
    `extendScript`: the bare `<script>` tag for an empty expression;
    otherwise a `<script src>` whose path is the expression without quotes.
   */
  function Script(e: string): (r: string)
    ensures PhpEmpty(e) ==> r == ScriptOpen
    ensures !PhpEmpty(e) ==> Unwrap(ScriptSrcOpen, ScriptSrcClose, r) == Some(StripQuotes(e))
  {
    if !PhpEmpty(e) then Enclose(ScriptSrcOpen, StripQuotes(e), ScriptSrcClose) else ScriptOpen
  }

  /** `extendEndScript`: ignores its expression. */
  function EndScript(e: string): (r: string)
    ensures r == "</" + ScriptOpen[1..]
  {
    "</script>"
  }

  /** The bare opening tag is produced exactly for PHP-empty expressions. */
  lemma OpenTagIffEmpty(e: string)
    ensures Style(e) == StyleOpen <==> PhpEmpty(e)
    ensures Script(e) == ScriptOpen <==> PhpEmpty(e)
  {
  }

  /** A pair of quotes is not PHP-empty: `@style('')` links an empty path instead of opening a block. */
  lemma QuotedEmptyIsALink()
    ensures Style("''") == StyleLinkOpen + StyleLinkClose
  {
  }

  /**
    The closing directives are constants, whatever the expression, and each
    closes the block its opening directive starts: `@repeat` opens with the
    same loop keyword that `@endrepeat` ends.
   */
  lemma ClosingTagsConstant(a: string, b: string)
    ensures EndStyle(a) == EndStyle(b) == "</" + StyleOpen[1..]
    ensures EndScript(a) == EndScript(b) == "</" + ScriptOpen[1..]
    ensures EndRepeat(a) == EndRepeat(b) == "<?php endfor; ?>"
    ensures StartsWith(RepeatOpen, PhpOpen + LoopKeyword)
  {
    assert RepeatOpen[..|PhpOpen + LoopKeyword|] == PhpOpen + LoopKeyword;
  }

  // ---------------------------------------------------------------------
  // @inline

  const IncludeOpen := "<?php include public_path("
  const IncludeClose := ") ?>\n"

  /**
    A comment line naming the file, then a PHP `include` of that same file
    under the public path.
   */
  function IncludeSnippet(e: string): (r: string)
    ensures |r| == 2 * |e| + 36
    ensures r[0] == '/' && r[4..4 + |e|] == e
    ensures r[..|e| + 5] == "//  " + e + "\n"
    ensures Unwrap(IncludeOpen, IncludeClose, r[|e| + 5..]) == Some(e)
  {
    var comment := "//  " + e + "\n";
    var r := comment + Enclose(IncludeOpen, e, IncludeClose);
    assert r[..|e| + 5] == comment && r[|e| + 5..] == Enclose(IncludeOpen, e, IncludeClose);
    assert r[4..4 + |e|] == comment[4..4 + |e|] == e;
    r
  }

  const InlineStyleOpen := "<style>\n"
  const InlineStyleClose := "</style>"
  const InlineScriptOpen := "<script>\n"
  const InlineScriptClose := "</script>"

  /**
    `extendInline`: defined exactly for an expression ending in `.html'`,
    `.css'` or `.js'`; the html form is the include snippet itself, the css
    and js forms wrap that same snippet in `<style>` and `<script>` blocks.
    Any other expression yields no fragment (PHP's implicit `null`).
   */
  function Inline(e: string): (r: Option<string>)
    ensures r.Some? <==> EndsWith(e, HtmlSuffix) || EndsWith(e, CssSuffix) || EndsWith(e, JsSuffix)
    ensures EndsWith(e, HtmlSuffix) ==> r == Some(IncludeSnippet(e))
    ensures EndsWith(e, CssSuffix) ==> r == Some(Enclose(InlineStyleOpen, IncludeSnippet(e), InlineStyleClose))
    ensures EndsWith(e, JsSuffix) ==> r == Some(Enclose(InlineScriptOpen, IncludeSnippet(e), InlineScriptClose))
  {
    SuffixesExclusive(e);
    var snippet := IncludeSnippet(e);
    if EndsWith(e, HtmlSuffix) then Some(snippet)
    else if EndsWith(e, CssSuffix) then Some(Enclose(InlineStyleOpen, snippet, InlineStyleClose))
    else if EndsWith(e, JsSuffix) then Some(Enclose(InlineScriptOpen, snippet, InlineScriptClose))
    else None
  }

  /** The path named by an include snippet: the text after the comment marker, half of what is not fixed. */
  function SnippetPath(x: string): Option<string> {
    if |x| >= 36 then Some(x[4..4 + (|x| - 36) / 2]) else None
  }

  /** Reads the expression back from a fragment of `@inline`, whichever of the three forms it has. */
  function InlinePath(r: string): Option<string> {
    if |r| > 0 && r[0] == '/' then SnippetPath(r)
    else if StartsWith(r, InlineStyleOpen) then
      match Unwrap(InlineStyleOpen, InlineStyleClose, r)
      case Some(x) => SnippetPath(x)
      case None => None
    else if StartsWith(r, InlineScriptOpen) then
      match Unwrap(InlineScriptOpen, InlineScriptClose, r)
      case Some(x) => SnippetPath(x)
      case None => None
    else None
  }

  /** A snippet wrapped in a `<style>` block is read back through the wrapper. */
  lemma StyleFormPath(x: string)
    ensures InlinePath(Enclose(InlineStyleOpen, x, InlineStyleClose)) == SnippetPath(x)
  {
    var r := Enclose(InlineStyleOpen, x, InlineStyleClose);
    assert r[..|InlineStyleOpen|] == InlineStyleOpen;
    assert r[0] == InlineStyleOpen[0] == '<';
  }

  /** A snippet wrapped in a `<script>` block is read back through the wrapper. */
  lemma ScriptFormPath(x: string)
    ensures InlinePath(Enclose(InlineScriptOpen, x, InlineScriptClose)) == SnippetPath(x)
  {
    var r := Enclose(InlineScriptOpen, x, InlineScriptClose);
    assert r[..|InlineScriptOpen|] == InlineScriptOpen;
    assert r[0] == InlineScriptOpen[0] == '<';
    assert r[..|InlineStyleOpen|][2] == 'c' != InlineStyleOpen[2];
  }

  /** Every fragment `@inline` produces names its expression, which can be read back. */
  lemma InlineRoundTrip(e: string)
    ensures Inline(e).Some? ==> InlinePath(Inline(e).value) == Some(e)
  {
    SuffixesExclusive(e);
    var x := IncludeSnippet(e);
    assert SnippetPath(x) == Some(e);
    if EndsWith(e, CssSuffix) {
      StyleFormPath(x);
    } else if EndsWith(e, JsSuffix) {
      ScriptFormPath(x);
    }
  }

  /** Two expressions that inline to the same fragment are the same expression. */
  lemma InlineInjective(a: string, b: string)
    requires Inline(a).Some? && Inline(a) == Inline(b)
    ensures a == b
  {
    InlineRoundTrip(a);
    InlineRoundTrip(b);
  }

  // ---------------------------------------------------------------------
  // @repeat / @endrepeat, @fa

  const PhpOpen := "<?php "
  const LoopKeyword := "for"
  const RepeatOpen := PhpOpen + LoopKeyword + " ($iteration = 0 ; $iteration < (int) "
  const RepeatClose := "; $iteration++): ?>"

  /** `extendRepeat`: a counted `for` header bounded by `(int)` of the expression. */
  function Repeat(e: string): (r: string)
    ensures Unwrap(RepeatOpen, RepeatClose, r) == Some(e)
  {
    Enclose(RepeatOpen, e, RepeatClose)
  }

  /** `extendEndRepeat`: ignores its expression and closes the `for` that `Repeat` opens. */
  function EndRepeat(e: string): (r: string)
    ensures r == PhpOpen + "end" + LoopKeyword + "; ?>"
  {
    "<?php endfor; ?>"
  }

  const FaOpen := "<i class=\"fa fa-"
  const FaClose := "\"></i>"

  /** `extendFa`: a Font Awesome `<i>` whose class suffix is the icon name without quotes. */
  function Fa(e: string): (r: string)
    ensures Unwrap(FaOpen, FaClose, r) == Some(StripQuotes(e))
  {
    Enclose(FaOpen, StripQuotes(e), FaClose)
  }

  /** The class name inside `@fa` never holds a quote, so it cannot end the attribute early. */
  lemma FaClassQuoteFree(e: string)
    ensures Unwrap(FaOpen, FaClose, Fa(e)).Some?
    ensures '\'' !in Unwrap(FaOpen, FaClose, Fa(e)).value
  {
  }

  // ---------------------------------------------------------------------
  // Echo helpers: @route, @url, @asset and their href/action forms

  const EchoClose := ") ?>"
  const RouteOpen := "<?php echo route("
  const UrlOpen := "<?php echo url("
  const AssetOpen := "<?php echo asset("
  const AttrClose := ").'\"'; ?>"
  const HrefRouteOpen := "<?php echo 'href=\"'.route("
  const ActionRouteOpen := "<?php echo 'action=\"'.route("
  const HrefUrlOpen := "<?php echo 'href=\"'.url("
  const ActionUrlOpen := "<?php echo 'action=\"'.url("
  const HrefAssetOpen := "<?php echo 'href=\"'.asset("
  const ActionAssetOpen := "<?php echo 'action=\"'.asset("

  /** `extendRoute`: echoes `route(expression)`. */
  function Route(e: string): (r: string)
    ensures Unwrap(RouteOpen, EchoClose, r) == Some(e)
  {
    Enclose(RouteOpen, e, EchoClose)
  }

  /** `extendUrl`: echoes `url(expression)`. */
  function Url(e: string): (r: string)
    ensures Unwrap(UrlOpen, EchoClose, r) == Some(e)
  {
    Enclose(UrlOpen, e, EchoClose)
  }

  /** `extendAsset`: echoes `asset(expression)`. */
  function Asset(e: string): (r: string)
    ensures Unwrap(AssetOpen, EchoClose, r) == Some(e)
  {
    Enclose(AssetOpen, e, EchoClose)
  }

  /** `extendHrefRoute`: echoes an `href` attribute holding `route(expression)`. */
  function HrefRoute(e: string): (r: string)
    ensures Unwrap(HrefRouteOpen, AttrClose, r) == Some(e)
  {
    Enclose(HrefRouteOpen, e, AttrClose)
  }

  /** `extendActionRoute`: echoes an `action` attribute holding `route(expression)`. */
  function ActionRoute(e: string): (r: string)
    ensures Unwrap(ActionRouteOpen, AttrClose, r) == Some(e)
  {
    Enclose(ActionRouteOpen, e, AttrClose)
  }

  /** `extendHrefUrl`: echoes an `href` attribute holding `url(expression)`. */
  function HrefUrl(e: string): (r: string)
    ensures Unwrap(HrefUrlOpen, AttrClose, r) == Some(e)
  {
    Enclose(HrefUrlOpen, e, AttrClose)
  }

  /** `extendActionUrl`: echoes an `action` attribute holding `url(expression)`. */
  function ActionUrl(e: string): (r: string)
    ensures Unwrap(ActionUrlOpen, AttrClose, r) == Some(e)
  {
    Enclose(ActionUrlOpen, e, AttrClose)
  }

  /** `extendHrefAsset`: echoes an `href` attribute holding `asset(expression)`. */
  function HrefAsset(e: string): (r: string)
    ensures Unwrap(HrefAssetOpen, AttrClose, r) == Some(e)
  {
    Enclose(HrefAssetOpen, e, AttrClose)
  }

  /** `extendActionAsset`: echoes an `action` attribute holding `asset(expression)`. */
  function ActionAsset(e: string): (r: string)
    ensures Unwrap(ActionAssetOpen, AttrClose, r) == Some(e)
  {
    Enclose(ActionAssetOpen, e, AttrClose)
  }

  // ---------------------------------------------------------------------
  // @farsiNum

  predicate IsAsciiDigit(c: char) {
    '0' <= c <= '9'
  }

  /** U+06F0 to U+06F9, EXTENDED ARABIC-INDIC DIGIT ZERO to NINE. */
  predicate IsPersianDigit(c: char) {
    '\U{06F0}' <= c <= '\U{06F9}'
  }

  /** The `strtr` table: ASCII digit `d` to U+06F0 + `d`, every other character to itself. */
  function PersianDigit(c: char): (p: char)
    ensures IsAsciiDigit(c) ==> IsPersianDigit(p) && p as int - 0x06F0 == c as int - '0' as int
    ensures !IsAsciiDigit(c) ==> p == c
  {
    if IsAsciiDigit(c) then (c as int - '0' as int + 0x06F0) as char else c
  }

  /** `strtr($expression, $array)` with the ten one-character digit keys. */
  function ToPersianDigits(s: string): (r: string)
    ensures |r| == |s|
    ensures forall i :: 0 <= i < |s| ==> r[i] == PersianDigit(s[i])
    ensures forall i :: 0 <= i < |r| ==> !IsAsciiDigit(r[i])
  {
    if s == [] then [] else [PersianDigit(s[0])] + ToPersianDigits(s[1..])
  }

  /** The inverse table: a Persian digit back to its ASCII digit. */
  function AsciiDigit(c: char): char {
    if IsPersianDigit(c) then (c as int - 0x06F0 + '0' as int) as char else c
  }

  function ToAsciiDigits(s: string): string {
    if s == [] then [] else [AsciiDigit(s[0])] + ToAsciiDigits(s[1..])
  }

  /** Text without Persian digits is recovered from its conversion: the table is a bijection on digits. */
  lemma {:induction false} PersianDigitsRoundTrip(s: string)
    requires forall i :: 0 <= i < |s| ==> !IsPersianDigit(s[i])
    ensures ToAsciiDigits(ToPersianDigits(s)) == s
    decreases |s|
  {
    if s != [] {
      PersianDigitsRoundTrip(s[1..]);
      var t := ToPersianDigits(s);
      assert t[1..] == ToPersianDigits(s[1..]);
      assert AsciiDigit(t[0]) == s[0];
      assert [s[0]] + s[1..] == s;
    }
  }

  const FarsiOpen := "<?php echo "
  const FarsiClose := "; ?>"

  /** `extendFarsiNum`: echoes the expression with every ASCII digit made Persian. */
  function FarsiNum(e: string): (r: string)
    ensures Unwrap(FarsiOpen, FarsiClose, r) == Some(ToPersianDigits(e))
    ensures forall i :: 0 <= i < |r| ==> !IsAsciiDigit(r[i])
  {
    var m := ToPersianDigits(e);
    var r := Enclose(FarsiOpen, m, FarsiClose);
    assert forall i :: 0 <= i < |r| ==> r[i] == (if i < |FarsiOpen| then FarsiOpen[i]
      else if i < |FarsiOpen| + |m| then m[i - |FarsiOpen|] else FarsiClose[i - |FarsiOpen| - |m|]);
    r
  }

  // ---------------------------------------------------------------------
  // Conditions: ifIsTrue, ifIsFalse, ifIsNull, ifIsNotNull

  /** The evaluated template values a condition can receive. */
  datatype Value = Null | Bool(b: bool) | Int(i: int) | Str(s: string)

  /** `ifIsTrue`: `$expression === true`. */
  predicate IsTrue(v: Value): (b: bool)
    ensures b <==> v.Bool? && v.b
  {
    v == Bool(true)
  }

  /** `ifIsFalse`: `$expression === false`. */
  predicate IsFalse(v: Value): (b: bool)
    ensures b <==> v.Bool? && !v.b
  {
    v == Bool(false)
  }

  /** `ifIsNull`: `is_null($expression)`. */
  predicate IsNull(v: Value): (b: bool)
    ensures b <==> !(v.Bool? || v.Int? || v.Str?)
  {
    v.Null?
  }

  /** `ifIsNotNull`: `! is_null($expression)`. */
  predicate IsNotNull(v: Value): (b: bool)
    ensures b <==> v.Bool? || v.Int? || v.Str?
  {
    !IsNull(v)
  }

  /** The null tests are exact complements; the true and false tests are strict identities. */
  lemma ConditionsStrict(v: Value)
    ensures IsNotNull(v) <==> !IsNull(v)
    ensures !(IsTrue(v) && IsFalse(v))
    ensures IsTrue(v) ==> IsNotNull(v) && v.Bool?
    ensures IsFalse(v) ==> IsNotNull(v) && v.Bool?
    ensures v == Str("true") || v == Int(1) || v == Str("1") ==> !IsTrue(v) && !IsFalse(v)
    ensures v == Str("") || v == Int(0) || v == Str("0") || v == Null ==> !IsFalse(v) && !IsTrue(v)
  {
  }

  // ---------------------------------------------------------------------
  // boot, registerDirectives, registerIfDirectives

  const TransformMarker := "extend"
  const ConditionMarker := "if"

  /** `registerDirectives`: `camel_case(str_replace('extend', '', $method))`. */
  function TransformName(m: string): (name: string)
    requires NoSeparators(m)
    ensures |name| <= |m|
  {
    var stripped := RemoveAll(m, TransformMarker);
    RemoveAllChars(m, TransformMarker);
    assert NoSeparators(stripped) by {
      forall i | 0 <= i < |stripped| ensures !IsSeparator(stripped[i]) {
        assert stripped[i] in stripped;
      }
    }
    CamelCase(stripped)
  }

  /** `registerIfDirectives`: `strtolower(str_replace('if', '', $method))`. */
  function ConditionName(m: string): (name: string)
    ensures |name| <= |m|
    ensures forall i :: 0 <= i < |name| ==> !IsUpper(name[i])
  {
    var n := Lower(RemoveAll(m, ConditionMarker));
    LowerIsLower(RemoveAll(m, ConditionMarker));
    n
  }

  /**
    A transform method named `extend` + `rest` gives `rest`, with any further
    `extend` deleted, first letter lowered; without a further marker, just
    `rest` with its first letter lowered.
   */
  lemma TransformNameOf(rest: string)
    requires NoSeparators(TransformMarker + rest)
    ensures TransformName(TransformMarker + rest) == LcFirst(RemoveAll(rest, TransformMarker))
    ensures !Occurs(rest, TransformMarker) ==> TransformName(TransformMarker + rest) == LcFirst(rest)
  {
    RemoveAllLeading(TransformMarker, rest);
    RemoveAllUnchanged(rest, TransformMarker);
  }

  /**
    A condition method named `if` + `rest` gives `rest`, with any further `if`
    deleted, in lower case; without a further marker, just `rest` in lower case.
   */
  lemma ConditionNameOf(rest: string)
    ensures ConditionName(ConditionMarker + rest) == Lower(RemoveAll(rest, ConditionMarker))
    ensures !Occurs(rest, ConditionMarker) ==> ConditionName(ConditionMarker + rest) == Lower(rest)
  {
    RemoveAllLeading(ConditionMarker, rest);
    RemoveAllUnchanged(rest, ConditionMarker);
  }

  /** No method name is both a transform and a condition. */
  lemma MarkersExclusive(m: string)
    ensures !(StartsWith(m, TransformMarker) && StartsWith(m, ConditionMarker))
  {
    if StartsWith(m, TransformMarker) {
      assert m[..|ConditionMarker|][0] == m[..|TransformMarker|][0] == 'e' != ConditionMarker[0];
    }
  }

  datatype Kind = Transform | Condition

  /** A directive of the host engine: its name, its kind and the method that handles it. */
  datatype Binding = Binding(name: string, kind: Kind, handler: string)

  /** The binding `boot` creates for one method, if any. */
  function BindingsOf(m: string): (bs: seq<Binding>)
    requires StartsWith(m, TransformMarker) ==> NoSeparators(m)
  {
    (if StartsWith(m, TransformMarker) then [Binding(TransformName(m), Transform, m)] else [])
    + (if StartsWith(m, ConditionMarker) then [Binding(ConditionName(m), Condition, m)] else [])
  }

  /** The binding follows the naming rule of its kind. */
  predicate Derived(b: Binding)
    requires b.kind == Transform ==> NoSeparators(b.handler)
  {
    match b.kind
    case Transform => StartsWith(b.handler, TransformMarker) && b.name == TransformName(b.handler)
    case Condition => StartsWith(b.handler, ConditionMarker) && b.name == ConditionName(b.handler)
  }

  /**
    `boot`: walks the class's methods in order; every `extend*` method
    becomes a transform directive and every `if*` method a condition, named
    as `registerDirectives` and `registerIfDirectives` derive. Every binding
    comes from a listed method by the naming rule, and every marked method
    gets its binding.
   */
  function Bindings(methods: seq<string>): (bs: seq<Binding>)
    requires forall i :: 0 <= i < |methods| ==> StartsWith(methods[i], TransformMarker) ==> NoSeparators(methods[i])
    ensures forall b :: b in bs ==> b.handler in methods && (b.kind == Transform ==> NoSeparators(b.handler)) && Derived(b)
    ensures forall m :: m in methods && StartsWith(m, TransformMarker) ==>
      Binding(TransformName(m), Transform, m) in bs
    ensures forall m :: m in methods && StartsWith(m, ConditionMarker) ==>
      Binding(ConditionName(m), Condition, m) in bs
    ensures forall m :: m in methods && !StartsWith(m, TransformMarker) && !StartsWith(m, ConditionMarker) ==>
      forall b :: b in bs ==> b.handler != m
  {
    if methods == [] then []
    else
      MarkersExclusive(methods[0]);
      BindingsOf(methods[0]) + Bindings(methods[1..])
  }
}
