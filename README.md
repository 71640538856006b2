# Enrollment-profile template substitution

This project models the only computation in the MDM stack: how the
enrollment profile (`enroll.mobileconfig`) is produced from its template.
There are two parts.

- **The template parser.** `stringTemplateParser` replaces every placeholder
  matched by the global regular expression `/{{\s?([^{}\s]*)\s?}}/g` with the
  lookup value of the captured name.
  - A placeholder is `{{`, at most one whitespace character, a name of
    characters other than `{`, `}` and whitespace (possibly empty), at most one
    whitespace character, and `}}`.
  - Matches are found left to right and never overlap. Replacement values are
    inserted verbatim and are not scanned again.
  - A name the lookup does not hold is not an error. The callback returns
    `undefined`, which JavaScript turns into the text `undefined`.
- **The replacement lookup.** It holds exactly four entries built from the
  stack properties:
  - `MDM_SERVER_URL`: the MDM server URL with `mdm` appended.
  - `SCEP_SERVER_URL`: the SCEP server URL with `scep` appended.
  - `SCEP_CHALLENGE_PASSWORD` and `MDM_APNS_TOPIC`: passed through unchanged.

The project has three modules, one per file.

- `Placeholder` (`placeholder.dfy`): the placeholder grammar and the matcher
  tried at one position.
  - `IsPlaceholder` is the grammar, stated declaratively.
  - `MatchPrefix` is a deterministic matcher. It takes the optional
    whitespace whenever it is present and the longest name.
  - `MatchExact` proves that the matcher and the grammar agree exactly, so the
    regular expression's backtracking never finds a different match.
  - `IsWs` is the ECMAScript `\s` class: the WhiteSpace and LineTerminator code
    points.
- `TemplateParser` (`template.dfy`): the global replace. It has three parts.
  - `Tokenize` scans a template into literal characters and matched
    placeholders.
  - `Render` (= `stringTemplateParser`) replaces each match. A missing name
    gives `"undefined"`.
  - `IsScan` is a declarative description of a left-to-right, non-overlapping
    scan. `Tokenize` is proved to be a scan and the only one.
  - `RenderStrict` is a separate strict variant. It is not in the source. It
    reports the first missing name instead of writing `undefined`.
- `MdmProfile` (`profile.dfy`): the stack properties, the replacement lookup
  and the rendered profile. `PropsOf` reads the stack properties back out of
  a lookup. It has no counterpart in the source; it is the inverse that
  `LookupRoundTrip` and `LookupInjective` use to show that the lookup loses
  no property.

## Model

| member | source | states |
|---|---|---|
| Placeholder.IsWs | mdmProfileServer/infrastructure.ts:64 | the `\s` class as the ECMAScript WhiteSpace and LineTerminator code points; its role in matching is stated by `BracesNotWs`, `MatchComplete` and `InnerWhitespaceRejected` |
| Placeholder.IsPlaceholder | mdmProfileServer/infrastructure.ts:64 | the language of the regular expression: `{{`, optional whitespace, a name, optional whitespace, `}}`; `MatchExact` states that the matcher recognises exactly this language |
| Placeholder.MatchPrefix | mdmProfileServer/infrastructure.ts:64 | a match found at the start of a text spans at least `{{}}` and lies within the text, so the scan always makes progress |
| Placeholder.NameEnd | mdmProfileServer/infrastructure.ts:64 | `([^{}\s]*)` takes the longest run of name characters: all taken characters are name characters and the next one is not |
| Placeholder.MatchComplete | mdmProfileServer/infrastructure.ts:64 | every spelling the grammar allows (optional whitespace, name, optional whitespace, between `{{` and `}}`) is matched with that name and its full length, whatever follows |
| Placeholder.MatchSound | mdmProfileServer/infrastructure.ts:64 | whatever the matcher reports is a placeholder spelled with the reported name |
| Placeholder.MatchExact | mdmProfileServer/infrastructure.ts:64 | the matcher reports name and length k exactly when the first k characters are a placeholder with that name (both directions) |
| Placeholder.InnerWhitespaceRejected | mdmProfileServer/infrastructure.ts:64 | whitespace inside a name (`{{ a b }}`) or two leading whitespace characters (`{{  a}}`) make the text fail to match |
| Placeholder.BraceAfterOpenRejected | mdmProfileServer/infrastructure.ts:64 | no match starts two characters before a `{`; in particular `{{{` never starts one |
| TemplateParser.Render | mdmProfileServer/infrastructure.ts:63-68 | the template parser: the output is the replacement of a left-to-right, non-overlapping scan of the template (one exists) and of every such scan, each field becoming its value and each literal its character, in order |
| TemplateParser.Value | mdmProfileServer/infrastructure.ts:66 | what the callback yields as text: the lookup value, or `undefined` for a name the lookup does not hold; stated by `RenderPlaceholder` and `RenderMissingName` |
| TemplateParser.Tokenize | mdmProfileServer/infrastructure.ts:64-65 | every field of the scan is a placeholder in the grammar's sense, with its captured name |
| TemplateParser.TokenizeIsScan | mdmProfileServer/infrastructure.ts:64-65 | the scan is left to right and non-overlapping: the pieces spell the template in order, a field stands where a match starts, and a literal stands where none does |
| TemplateParser.ScanUnique | mdmProfileServer/infrastructure.ts:64-65 | any left-to-right scan of a template in that sense is the parser's scan |
| TemplateParser.TokenizeSource | mdmProfileServer/infrastructure.ts:65 | every character of the template belongs to exactly one piece, in order |
| TemplateParser.RenderPlaceholder | mdmProfileServer/infrastructure.ts:65-67 | a placeholder at the front is replaced by the lookup value of its name, and the scan resumes behind it without looking into the value |
| TemplateParser.RenderMissingName | mdmProfileServer/infrastructure.ts:66 | a name the lookup does not hold is still consumed and becomes the text `undefined` |
| TemplateParser.RenderUnmatched | mdmProfileServer/infrastructure.ts:65 | where no match starts, one character is copied and the scan moves on by one |
| TemplateParser.RenderBraceFree | mdmProfileServer/infrastructure.ts:65 | text without `{` is copied unchanged, whatever follows it |
| TemplateParser.RenderWithoutOpening | mdmProfileServer/infrastructure.ts:64-65 | a template in which `{{` never occurs is returned unchanged |
| TemplateParser.RenderOpenBrace | mdmProfileServer/infrastructure.ts:65 | a `{` that starts no match is copied and the scan moves on by one |
| TemplateParser.RenderOpenNoMatch | mdmProfileServer/infrastructure.ts:64-65 | a `{{` that starts no match, before a character other than `{`, is copied as two characters |
| TemplateParser.RenderRejected | mdmProfileServer/infrastructure.ts:64-65 | `{{ a b` and `{{  a` style texts are copied unchanged, and so is whatever the scan finds behind them |
| TemplateParser.RenderBeforeOpen | mdmProfileServer/infrastructure.ts:64-65 | `{{` directly before another `{{` is copied |
| TemplateParser.OutputNotRescanned | mdmProfileServer/infrastructure.ts:65-67 | `{{{{a}}}}` becomes `{{` + value + `}}`: the output is not rescanned, so it can still contain a placeholder |
| TemplateParser.ValueNotRescanned | mdmProfileServer/infrastructure.ts:65-67 | a value `{{X}}` appears verbatim in the output |
| TemplateParser.FillLocal | mdmProfileServer/infrastructure.ts:66 | the output of a scan depends on the lookup only through the values of the names it uses |
| TemplateParser.RenderLocal | mdmProfileServer/infrastructure.ts:66 | two lookups that agree on the names a template uses render it alike |
| TemplateParser.FillStrict | mdmProfileServer/infrastructure.ts:66 | strict variant: it succeeds exactly when every used name is in the lookup, and then gives the ordinary output; otherwise it reports a used name that is missing |
| TemplateParser.RenderStrict | mdmProfileServer/infrastructure.ts:66 | the same, for a template |
| TemplateParser.FillStrictFirstMissing | mdmProfileServer/infrastructure.ts:66 | the name the strict variant reports is the first missing one in template order |
| MdmProfile.ReplacementLookup | mdmProfileServer/infrastructure.ts:32-37 | the lookup has exactly the four keys, the two URLs with their suffixes and the other two values unchanged |
| MdmProfile.LookupRoundTrip | mdmProfileServer/infrastructure.ts:32-37 | the stack properties can be read back from the lookup, so none of them is lost |
| MdmProfile.LookupInjective | mdmProfileServer/infrastructure.ts:32-37 | different stack properties give different lookups |
| MdmProfile.KeysAreNames | mdmProfileServer/infrastructure.ts:32-37 | each of the four keys can be written as a placeholder name |
| MdmProfile.RenderProfile | mdmProfileServer/infrastructure.ts:40 | the profile is the template rendered with the replacement lookup; a template naming none of the four keys renders the same whatever the stack properties are; see also `ProfileKeyRendered`, `ProfileUnknownName` and `ProfileStrict` |
| MdmProfile.KeyFreeRender | mdmProfileServer/infrastructure.ts:32-40 | with a template that names none of the four keys, the lookup gives the same output as the empty lookup |
| MdmProfile.ProfileKeyRendered | mdmProfileServer/infrastructure.ts:32-40 | in the profile, a placeholder naming a key becomes that key's value |
| MdmProfile.ProfileUnknownName | mdmProfileServer/infrastructure.ts:40 | in the profile, a placeholder naming anything else becomes `undefined` |
| MdmProfile.ProfileStrict | mdmProfileServer/infrastructure.ts:32-40 | the strict variant succeeds with the profile exactly when the template uses only the four keys; otherwise the name it reports is not a key |
| MdmProfile.ProfileServerUrlLine | mdmProfileServer/infrastructure.ts:33 | a template line `…{{MDM_SERVER_URL}}…` becomes the line with the MDM server URL followed by `mdm` |

## Left out

- Reading the template file from disk (mdmProfileServer/infrastructure.ts:39) is file I/O. The template is an input string of `RenderProfile`.
- The S3 bucket, the `BucketDeployment` of the rendered profile and the `CfnOutput` URL (mdmProfileServer/infrastructure.ts:28-30, 45-54) are cloud resource declarations with no computation of their own.
- The other stacks are declarative configuration for external services: mdmserver/infrastructure.ts, scepserver/infrastructure.ts and shared_infrastructure.ts. So is the stack wiring in app.ts. The Go server binaries are not part of this model.
- Lookup keys are modelled as a `map`. JavaScript reads `lookupObject[value]` through the prototype chain, so names such as `toString` or `constructor` give inherited members there. The model writes `undefined` for them.
- Strings are sequences of Dafny characters (Unicode scalar values), not UTF-16 code units. A character outside the Basic Multilingual Plane is one character here and two code units in JavaScript. This does not change which placeholders match, because `\s`, `{` and `}` all lie in the Basic Multilingual Plane, but it does change lengths.
- Residual placeholders: the output can still contain text shaped like a placeholder, as `OutputNotRescanned` shows for `{{{{a}}}}`. Because the output is never rescanned, no "no placeholder left" property holds of the code, and none is claimed.
