# Blade directives provider, modelled in Dafny

A model of `BladeDirectivesServiceProvider`, a Laravel service provider that
adds custom directives to the Blade template compiler. Each `extend*` method
takes a directive's raw expression text and returns a template fragment: a
`<link>` or `<script>` tag for a Laravel Mix asset, an inline include, a
counted loop header, a Font Awesome icon, an echo of `route`, `url` or `asset`,
the expression with its digits made Persian. The four value conditions
(`ifIsTrue`, `ifIsFalse`, `ifIsNull`, `ifIsNotNull`) are strict tests on an
evaluated value; `ifEnv` and `ifAction` consult the running application and
are left out. `boot` names every directive after its method:
an `extend*` method becomes a content directive, an `if*` method a
conditional one.

Everything is pure. The model is three modules of functions and lemmas:

- `Wrappers` — `Option`, for `extendInline`, which returns nothing for an
  unsupported extension.
- `PhpStrings` — the PHP and Laravel string helpers the provider calls:
  `str_replace` with an empty replacement (`RemoveAll`), `starts_with`,
  `ends_with`, `trim`, `explode`, `strtolower`, `lcfirst`, `camel_case`.
- `BladeDirectives` — the provider: `stripQuotes`, `multipleArgs`, every
  `extend*` transform, the four value conditions, the name derivation of
  `registerDirectives` / `registerIfDirectives`, and `boot`'s classification
  of a list of method names (`Bindings`).

Fixed-template directives are written as `Enclose(prefix, middle, suffix)`.
Their contracts say that `Unwrap`, the inverse, reads the middle back. So
each contract states that the expression (or its quote-free or Persian-digit
form) appears verbatim between fixed text.

The directive names follow the code. `camel_case` keeps inner capitals, so
the close of `@style` is `@endStyle`, not `@endstyle`. `strtolower` lowers
the whole name of a condition, so the conditions are `@istrue`, `@isfalse`,
`@isnull` and `@isnotnull`, not `@isTrue`. `extendInline` yields PHP `null`
for any other extension. The model keeps that as `None` and does not invent
a default.

## Model

| member | source | states |
|---|---|---|
| `BladeDirectives.StripQuotes` | src/BladeDirectivesServiceProvider.php:47-50 | the result holds no `'`; every other character keeps its number of occurrences; the length drops by the number of quotes |
| `BladeDirectives.StripQuotesAppend` | src/BladeDirectivesServiceProvider.php:49 | stripping distributes over concatenation, so surviving characters keep their order |
| `BladeDirectives.StripQuotesChar` | src/BladeDirectivesServiceProvider.php:49 | a single `'` is removed and any other single character is kept |
| `BladeDirectives.StripQuotesIdempotent` | src/BladeDirectivesServiceProvider.php:47-50 | stripping twice equals stripping once; quote-free text is left unchanged |
| `BladeDirectives.MultipleArgs` | src/BladeDirectivesServiceProvider.php:34-39 | one argument more than there are commas; no argument holds a comma or starts or ends with `trim` white space |
| `BladeDirectives.MultipleArgsJoin` | src/BladeDirectivesServiceProvider.php:34-39 | trimmed, comma-free arguments joined by commas, with white space around each, split back to exactly those arguments |
| `BladeDirectives.SuffixesExclusive` | src/BladeDirectivesServiceProvider.php:154-161 | no expression ends in two of `.css'`, `.js'` and `.html'`, so the order of the suffix tests does not matter |
| `BladeDirectives.Mix` | src/BladeDirectivesServiceProvider.php:86-95 | a `.css'` expression gives the stylesheet `<link>` form, a `.js'` one the `<script>` form, any other the bare `mix` echo; in each the expression is read back verbatim from between the fixed parts |
| `BladeDirectives.MixDispatch` | src/BladeDirectivesServiceProvider.php:88-94 | the output starts with `<link` iff the expression ends in `.css'`, with `<script` iff it ends in `.js'`, with `<?php` iff neither |
| `BladeDirectives.Style` | src/BladeDirectivesServiceProvider.php:103-109 | a PHP-empty expression (`""` or `"0"`) gives `<style>`; any other gives a stylesheet `<link>` whose `href` is the quote-stripped expression |
| `BladeDirectives.Script` | src/BladeDirectivesServiceProvider.php:128-133 | a PHP-empty expression gives `<script>`; any other gives a `<script src>` whose path is the quote-stripped expression |
| `BladeDirectives.EndStyle` | src/BladeDirectivesServiceProvider.php:117-120 | the fragment is the closing tag of the `<style>` element `@style` opens |
| `BladeDirectives.EndScript` | src/BladeDirectivesServiceProvider.php:141-143 | the fragment is the closing tag of the `<script>` element `@script` opens |
| `BladeDirectives.OpenTagIffEmpty` | src/BladeDirectivesServiceProvider.php:105 | `@style` and `@script` give the bare opening tag iff the expression is PHP-empty |
| `BladeDirectives.QuotedEmptyIsALink` | src/BladeDirectivesServiceProvider.php:105-106 | the expression `''` is not PHP-empty, so `@style('')` links an empty path |
| `BladeDirectives.ClosingTagsConstant` | src/BladeDirectivesServiceProvider.php:117-184 | `extendEndStyle`, `extendEndScript` and `extendEndRepeat` return the same text for every expression, the closing tag of the block their opener starts; `@repeat`'s header opens with the `for` that `@endrepeat` ends |
| `BladeDirectives.IncludeSnippet` | src/BladeDirectivesServiceProvider.php:153 | the first line is the comment `//  ` followed by the expression; the rest is the `<?php include public_path(` … `) ?>` line, from which the same expression reads back verbatim; the length is twice the expression's plus 36 |
| `BladeDirectives.Inline` | src/BladeDirectivesServiceProvider.php:151-163 | a fragment exists iff the expression ends in `.html'`, `.css'` or `.js'`; html gives the include snippet, css and js give that same snippet inside `<style>` and `<script>` blocks |
| `BladeDirectives.StyleFormPath` | src/BladeDirectivesServiceProvider.php:157-158 | the path read back from a snippet inside the `<style>` block is the path of the snippet itself |
| `BladeDirectives.ScriptFormPath` | src/BladeDirectivesServiceProvider.php:160-161 | the path read back from a snippet inside the `<script>` block is the path of the snippet itself |
| `BladeDirectives.InlineRoundTrip` | src/BladeDirectivesServiceProvider.php:151-163 | the expression can be read back from every fragment `@inline` produces |
| `BladeDirectives.InlineInjective` | src/BladeDirectivesServiceProvider.php:151-163 | two expressions that inline to the same fragment are equal |
| `BladeDirectives.Repeat` | src/BladeDirectivesServiceProvider.php:171-174 | the loop header holds the expression verbatim as its `(int)` bound |
| `BladeDirectives.EndRepeat` | src/BladeDirectivesServiceProvider.php:182-184 | the fragment is `<?php end` + the loop keyword (`for`) + `; ?>`, whatever the expression |
| `BladeDirectives.Fa` | src/BladeDirectivesServiceProvider.php:192-196 | the icon class suffix is the quote-stripped expression, read back from between the fixed parts |
| `BladeDirectives.FaClassQuoteFree` | src/BladeDirectivesServiceProvider.php:194-195 | the class text inside `@fa` never contains `'` |
| `BladeDirectives.Route` | src/BladeDirectivesServiceProvider.php:204-207 | the fragment is the fixed `route(` echo around the expression, which reads back verbatim |
| `BladeDirectives.Url` | src/BladeDirectivesServiceProvider.php:231-234 | the fixed `url(` echo around the expression, which reads back verbatim |
| `BladeDirectives.Asset` | src/BladeDirectivesServiceProvider.php:286-289 | the fixed `asset(` echo around the expression, which reads back verbatim |
| `BladeDirectives.HrefRoute` | src/BladeDirectivesServiceProvider.php:242-245 | the fixed `href` attribute echo with `route(` around the expression, which reads back verbatim |
| `BladeDirectives.ActionRoute` | src/BladeDirectivesServiceProvider.php:253-256 | the fixed `action` attribute echo with `route(` around the expression, which reads back verbatim |
| `BladeDirectives.HrefUrl` | src/BladeDirectivesServiceProvider.php:264-267 | the fixed `href` attribute echo with `url(` around the expression, which reads back verbatim |
| `BladeDirectives.ActionUrl` | src/BladeDirectivesServiceProvider.php:275-278 | the fixed `action` attribute echo with `url(` around the expression, which reads back verbatim |
| `BladeDirectives.HrefAsset` | src/BladeDirectivesServiceProvider.php:297-300 | the fixed `href` attribute echo with `asset(` around the expression, which reads back verbatim |
| `BladeDirectives.ActionAsset` | src/BladeDirectivesServiceProvider.php:308-311 | the fixed `action` attribute echo with `asset(` around the expression, which reads back verbatim |
| `BladeDirectives.EncloseInjective` | src/BladeDirectivesServiceProvider.php:171-311 | a fixed template never maps two expressions to the same fragment |
| `BladeDirectives.PersianDigit` | src/BladeDirectivesServiceProvider.php:217-219 | ASCII digit `d` maps to the Persian digit U+06F0 + `d`; every other character maps to itself |
| `BladeDirectives.ToPersianDigits` | src/BladeDirectivesServiceProvider.php:220 | same length, each character mapped in place by the digit table, no ASCII digit left |
| `BladeDirectives.PersianDigitsRoundTrip` | src/BladeDirectivesServiceProvider.php:217-220 | text without Persian digits is recovered from its conversion, so the table is a bijection on digits |
| `BladeDirectives.FarsiNum` | src/BladeDirectivesServiceProvider.php:215-222 | the fragment is the fixed echo around the converted expression; the whole fragment holds no ASCII digit |
| `BladeDirectives.IsTrue` | src/BladeDirectivesServiceProvider.php:319-322 | holds exactly for the boolean `true`, no other truthy value |
| `BladeDirectives.IsFalse` | src/BladeDirectivesServiceProvider.php:330-333 | holds exactly for the boolean `false`, no other falsy value |
| `BladeDirectives.IsNull` | src/BladeDirectivesServiceProvider.php:341-344 | holds exactly for null, not for a boolean, integer or string |
| `BladeDirectives.IsNotNull` | src/BladeDirectivesServiceProvider.php:352-355 | holds exactly for a boolean, integer or string |
| `BladeDirectives.ConditionsStrict` | src/BladeDirectivesServiceProvider.php:319-355 | `isnull` and `isnotnull` are complements; `istrue` and `isfalse` hold only for the booleans and never together; `"true"`, `1`, `""`, `0` and null fail both |
| `BladeDirectives.TransformName` | src/BladeDirectivesServiceProvider.php:59 | the derived directive name is no longer than the method name |
| `BladeDirectives.ConditionName` | src/BladeDirectivesServiceProvider.php:73 | the derived condition name is no longer than the method name and holds no upper-case letter |
| `BladeDirectives.TransformNameOf` | src/BladeDirectivesServiceProvider.php:57-64 | `extend` + rest names the directive rest, with every further `extend` deleted, first letter lowered; with no further `extend`, simply rest with its first letter lowered |
| `BladeDirectives.ConditionNameOf` | src/BladeDirectivesServiceProvider.php:71-78 | `if` + rest names the condition rest, with every further `if` deleted, in lower case; with no further `if`, simply rest in lower case |
| `BladeDirectives.MarkersExclusive` | src/BladeDirectivesServiceProvider.php:19-23 | no method name starts with both `extend` and `if` |
| `BladeDirectives.Bindings` | src/BladeDirectivesServiceProvider.php:18-25 | any method list is accepted as long as its `extend*` names are separator-free (other names such as `__construct` are unrestricted); every binding comes from a listed method by its kind's naming rule; every `extend*` method gets a content binding, every `if*` method a condition binding, and no other method gets any |
| `PhpStrings.StartsWith` | src/BladeDirectivesServiceProvider.php:19-22 | for a non-empty needle (every needle passed is a non-empty literal), `starts_with` holds iff the subject is the needle followed by the rest of the subject |
| `PhpStrings.EndsWith` | src/BladeDirectivesServiceProvider.php:154-160 | for a non-empty needle (every needle passed is a non-empty literal), `ends_with` holds iff the subject is its first part followed by the needle |
| `PhpStrings.RemoveAll` | src/BladeDirectivesServiceProvider.php:49-73 | `str_replace` with an empty replacement never lengthens the subject; its value for every subject is fixed by `RemoveAllUnchanged` and `RemoveAllFirst` |
| `PhpStrings.RemoveAllUnchanged` | src/BladeDirectivesServiceProvider.php:49 | `str_replace` leaves the subject unchanged iff the search string does not occur in it |
| `PhpStrings.RemoveAllFirst` | src/BladeDirectivesServiceProvider.php:59 | the text before the first occurrence of the search string is kept verbatim, that occurrence is deleted, and deletion goes on in the rest |
| `PhpStrings.RemoveAllShrinks` | src/BladeDirectivesServiceProvider.php:59 | when the search string occurs, the result is strictly shorter |
| `PhpStrings.RemoveAllLeading` | src/BladeDirectivesServiceProvider.php:59 | a leading occurrence is deleted and the scan resumes after it |
| `PhpStrings.RemoveAllSinglePass` | src/BladeDirectivesServiceProvider.php:59 | deletion is one pass: removing `extend` from `exextendtend` leaves `extend` |
| `PhpStrings.RemoveAllChars` | src/BladeDirectivesServiceProvider.php:59 | only characters of the subject survive |
| `PhpStrings.RemoveCharFacts` | src/BladeDirectivesServiceProvider.php:49 | deleting one character removes all of its occurrences and keeps the count of every other character |
| `PhpStrings.RemoveCharAppend` | src/BladeDirectivesServiceProvider.php:49 | deleting one character distributes over concatenation |
| `PhpStrings.TrimLeft` | src/BladeDirectivesServiceProvider.php:37 | the result is a suffix; everything cut is `trim` white space; the result does not start with it |
| `PhpStrings.TrimRight` | src/BladeDirectivesServiceProvider.php:37 | the result is a prefix; everything cut is `trim` white space; the result does not end with it |
| `PhpStrings.Trim` | src/BladeDirectivesServiceProvider.php:37 | the result is a contiguous part of the subject, everything cut on either side is `trim` white space, and neither end of the result is `trim` white space |
| `PhpStrings.TrimExact` | src/BladeDirectivesServiceProvider.php:37 | `trim` of white space, then a trimmed text, then white space gives back exactly that text |
| `PhpStrings.Explode` | src/BladeDirectivesServiceProvider.php:36 | `explode` always gives at least one piece, even for the empty subject |
| `PhpStrings.ExplodeFacts` | src/BladeDirectivesServiceProvider.php:36 | `explode` gives one more piece than there are delimiters, no piece holds the delimiter, and joining the pieces restores the subject |
| `PhpStrings.ExplodeJoin` | src/BladeDirectivesServiceProvider.php:36 | delimiter-free pieces survive a join followed by `explode` |
| `PhpStrings.Lower` | src/BladeDirectivesServiceProvider.php:73 | same length, each character lowered in place |
| `PhpStrings.LowerIsLower` | src/BladeDirectivesServiceProvider.php:73 | the result holds no upper-case letter, and lowering is idempotent |
| `PhpStrings.LcFirst` | src/BladeDirectivesServiceProvider.php:59 | only the first character is lowered; the rest is unchanged |
| `PhpStrings.CamelCase` | src/BladeDirectivesServiceProvider.php:59 | on a separator-free name, the first character is lowered, all other characters are kept, and the result is a fixed point of `lcfirst` |

## Left out

- The `Blade::directive` and `Blade::if` calls (lines 61-63 and 75-77) register closures in the host compiler's table. The model derives the `(name, kind, method)` bindings and stops there. It does not model the table, its last-registration-wins overwriting, or the effect of registering twice.
- `get_class_methods(static::class)` is reflection. `Bindings` takes the method list as a parameter, and the methods inherited from `ServiceProvider` are not listed.
- `ifEnv` and `ifAction` (lines 363-377) read runtime state: the application environment and the current route. That state is not part of this model.
- The emitted PHP is opaque text: `mix`, `route`, `url`, `asset`, `public_path`, the `include` and the `for` loop belong to the host framework.
- Strings are sequences of Unicode characters, not UTF-8 bytes. `strtr` with one-byte digit keys acts on bytes. No byte of a multi-byte UTF-8 character is an ASCII digit, so the per-character model gives the same text.
- `Value` has null, booleans, integers and strings. PHP floats, arrays and objects are left out; all four conditions treat them like integers and strings: neither `true`, `false` nor null.
- CamelCase: models Laravel's `camel_case` only on names without `-`, `_` or white space, where it reduces to `lcfirst`. Laravel's `camel_case` is not part of this model, and no method name of the provider contains a separator.
- TransformName: requires a separator-free method name, for the same reason as `CamelCase`.
- Bindings: requires the `extend*` names in the list to be separator-free, for the same reason as `CamelCase`; other names, such as the inherited `__construct`, are unrestricted.
- Lower: lowers ASCII letters only, as `strtolower` does from PHP 8.2 (earlier versions follow the C locale, which is ASCII by default).
- LcFirst: lowers an ASCII first letter only, as `lcfirst` does in the C locale.
