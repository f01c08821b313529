# picoFeed HTML filter — a Dafny model of its sanitising controller

This project models the controller of picoFeed's HTML filter, the `Html` class. It takes feed markup
and writes a policy-approved subset of it to an output buffer. The class first removes blacklisted
tags from its input. An XML parser then drives three event handlers:

- `startTag` writes an open tag only when the tag policy allows the tag and the attribute policy finds
  the required attributes among the filtered ones. Whatever it decides, it pushes one "suppressed"
  flag onto a stack.
- `endTag` pops that flag and writes the close tag only when the open tag was written and the tag is
  allowed.
- `dataTag` turns each UTF-8 no-break space into a plain space, escapes the text and appends it.

Last, the output is post-filtered in four stages: empty tags are removed, the site-specific regex
rules are applied, runs of line breaks are collapsed, and surrounding whitespace is trimmed.

Modules:

- `ByteStrings`: PHP byte strings, plus the two PHP built-ins the class calls with fixed arguments.
  These are `str_replace("\xc2\xa0", ' ', …)` (`ReplaceNbsp`) and `trim` with its default byte set
  (`Trim`).
- `Policies`: the Tag and Attribute collaborators. Each operation is a function value the model never
  looks inside.
- `Events`: the handlers as a state machine over parser events (`Step`, and `Run` over a sequence).
  It also holds a reference semantics without a stack (`OpenElements`, `Rendered`) and the lemmas
  that connect the two.
- `SiteRules`: the semantics of `filterRules` (`ApplySiteRules`), with lemmas on order, on
  non-matching rules and on failing substitutions.
- `HtmlFilter`: the `Html` class. Its fields are `output`, `emptyTags`, `empty`, `input`, `config`,
  `tag` and `attribute`. Its methods are proved against the functions above. The handler methods
  and the event loop state their new state as `Events.StartTagStep`, `Events.EndTagStep`,
  `Events.DataTagStep` and `Events.Run` of the old one, so the lemmas about `Events` hold of them.

Three behaviours of the code are worth stating:

- A failing site substitution is not skipped. `preg_replace` returns `null`, and the remaining
  substitutions see the empty string (`SiteRules.FailedSubstitutionEmptiesContent`).
- Every matching URL pattern applies, in declared order, not only the first one
  (`SiteRules.MatchingRuleDoesNotStop`).
- A close tag is written when `isAllowedTag` holds and its open tag was not suppressed. An unmatched
  close on an empty stack pops `null`, which counts as "not suppressed", so its close tag is written
  whenever the tag is allowed (`HtmlFilter.Html.EndTag`).

## Model

| member | source | states |
|---|---|---|
| `ByteStrings.ReplaceNbsp` | Resources/Private/Contrib/picoFeed/lib/PicoFeed/Filter/Html.php:257 | the replacement does not lengthen the text; the first byte is kept, or becomes a space where the text starts with a no-break space; the result holds no no-break space |
| `ByteStrings.ReplaceNbspIdentity` | Resources/Private/Contrib/picoFeed/lib/PicoFeed/Filter/Html.php:257 | text with no no-break space comes back unchanged |
| `ByteStrings.ReplaceNbspIdempotent` | Resources/Private/Contrib/picoFeed/lib/PicoFeed/Filter/Html.php:257 | replacing twice gives the same text as replacing once |
| `ByteStrings.ReplaceNbspConcat` | Resources/Private/Contrib/picoFeed/lib/PicoFeed/Filter/Html.php:257 | the replacement splits at any cut that does not fall between the two bytes of a no-break space: replacing a + b is replacing a, then b, joined |
| `ByteStrings.ReplaceNbspPieces` | Resources/Private/Contrib/picoFeed/lib/PicoFeed/Filter/Html.php:257 | a no-break space becomes exactly one space and a single byte is kept; every input is such pieces joined at cuts outside a no-break space, so with the concatenation lemma this fixes the result byte by byte, in order |
| `ByteStrings.ReplaceNbspStrayLead` | Resources/Private/Contrib/picoFeed/lib/PicoFeed/Filter/Html.php:257 | the bytes 0xC2 0xC2 0xA0 become 0xC2 0x20: a lead byte not followed by 0xA0 is kept, and the no-break space after it becomes one space |
| `ByteStrings.LeadingTrimmable` | Resources/Private/Contrib/picoFeed/lib/PicoFeed/Filter/Html.php:170 | counts the strippable bytes the text starts with: all of them are strippable, and the byte after them is not |
| `ByteStrings.TrailingTrimmable` | Resources/Private/Contrib/picoFeed/lib/PicoFeed/Filter/Html.php:170 | counts the strippable bytes the text ends with: all of them are strippable, and the byte before them is not |
| `ByteStrings.Trim` | Resources/Private/Contrib/picoFeed/lib/PicoFeed/Filter/Html.php:170 | the trimmed output has no leading or trailing strippable byte; it is the contiguous part of the input after the leading strippable bytes, and only strippable bytes follow it, so nothing else is removed |
| `ByteStrings.TrimIdentity` | Resources/Private/Contrib/picoFeed/lib/PicoFeed/Filter/Html.php:170 | text with nothing to strip at either end is unchanged |
| `ByteStrings.TrimIdempotent` | Resources/Private/Contrib/picoFeed/lib/PicoFeed/Filter/Html.php:170 | trimming twice gives the same text as trimming once |
| `Events.OpenElements` | Resources/Private/Contrib/picoFeed/lib/PicoFeed/Filter/Html.php:230-242 | every element of the source elements still open after a sequence of events is an open event; their order, innermost last, is the one `Nest` gives, and `Events.RunIsRendered` ties it to the handlers' flag stack |
| `Events.RunConcat` | Resources/Private/Contrib/picoFeed/lib/PicoFeed/Filter/Html.php:142 | handling the events of a + b is handling a, then b from the state a left |
| `Events.RunAppendsOnly` | Resources/Private/Contrib/picoFeed/lib/PicoFeed/Filter/Html.php:225-258 | over any sequence of events, the old output buffer is a prefix of the new one: the handlers only append |
| `Events.PartialParseIsPrefix` | Resources/Private/Contrib/picoFeed/lib/PicoFeed/Filter/Html.php:142 | a parse that stops after k events leaves only what the handlers wrote for those events, and that is a prefix of what the whole parse writes |
| `Events.RunDepth` | Resources/Private/Contrib/picoFeed/lib/PicoFeed/Filter/Html.php:230-242 | while no prefix closes more than the start depth plus what it opened, the stack depth is the start depth plus the opens minus the closes; when no prefix closes more than it opened, the start frames also stay beneath the new ones |
| `Events.BalancedRestoresStack` | Resources/Private/Contrib/picoFeed/lib/PicoFeed/Filter/Html.php:230-242 | a balanced event sequence leaves the flag stack exactly as it found it |
| `Events.RunIsRendered` | Resources/Private/Contrib/picoFeed/lib/PicoFeed/Filter/Html.php:215-258 | from an empty stack, the handlers write exactly what the stack-free reference gives event by event, and their stack holds the suppressed flags of the source elements still open |
| `Events.CloseFollowsOpen` | Resources/Private/Contrib/picoFeed/lib/PicoFeed/Filter/Html.php:240-245 | a close event appends the close tag if and only if the tag is allowed and the innermost open source element had its open tag written (or none is open); otherwise it appends nothing |
| `Events.SuppressedOpenSuppressesClose` | Resources/Private/Contrib/picoFeed/lib/PicoFeed/Filter/Html.php:217-245 | a close whose open tag was suppressed writes nothing |
| `SiteRules.ApplySubstitutionsConcat` | Resources/Private/Contrib/picoFeed/lib/PicoFeed/Filter/Html.php:197-199 | the substitutions of a pattern compose in declared order |
| `SiteRules.SiteRulesFlatten` | Resources/Private/Contrib/picoFeed/lib/PicoFeed/Filter/Html.php:194-202 | the nested loops equal one pass over the substitutions of every matching pattern: patterns in declared order, substitutions in declared order within each |
| `SiteRules.MatchingSubstitutionsConcat` | Resources/Private/Contrib/picoFeed/lib/PicoFeed/Filter/Html.php:195-200 | the substitutions collected from two rule lists in a row are those of the first, then those of the second |
| `SiteRules.ApplySiteRulesConcat` | Resources/Private/Contrib/picoFeed/lib/PicoFeed/Filter/Html.php:195-201 | a later rule is applied to what the earlier rules produced |
| `SiteRules.NonMatchingRuleIsInert` | Resources/Private/Contrib/picoFeed/lib/PicoFeed/Filter/Html.php:196 | a pattern that does not match the site path contributes nothing, wherever it stands |
| `SiteRules.MatchingRuleDoesNotStop` | Resources/Private/Contrib/picoFeed/lib/PicoFeed/Filter/Html.php:195-201 | after a matching pattern's substitutions, every later matching pattern still applies: the search does not stop at the first match |
| `SiteRules.NoMatchIsIdentity` | Resources/Private/Contrib/picoFeed/lib/PicoFeed/Filter/Html.php:195-204 | with no pattern matching the path, the content comes back unchanged |
| `SiteRules.FilterRulesIdentity` | Resources/Private/Contrib/picoFeed/lib/PicoFeed/Filter/Html.php:194-204 | without a `filter` key, or with no matching pattern, `filterRules` returns its input |
| `SiteRules.FailedSubstitutionEmptiesContent` | Resources/Private/Contrib/picoFeed/lib/PicoFeed/Filter/Html.php:198 | a substitution whose `preg_replace` fails is not skipped: the remaining ones work on the empty string |
| `HtmlFilter.Html.constructor` | Resources/Private/Contrib/picoFeed/lib/PicoFeed/Filter/Html.php:88-95 | the input is the converted markup; the buffer and the stack start empty; no config is set; new tag and attribute policies are made for the website |
| `HtmlFilter.Html.SetConfig` | Resources/Private/Contrib/picoFeed/lib/PicoFeed/Filter/Html.php:104-124 | the config is stored; a `null` config leaves the tag and attribute policies untouched, and any other config reconfigures both |
| `HtmlFilter.Html.StartTag` | Resources/Private/Contrib/picoFeed/lib/PicoFeed/Filter/Html.php:215-231 | exactly one flag is pushed, with the frames below unchanged; the flag is false if and only if the tag is allowed and its filtered attributes have the required ones; it is false exactly when the rendered open tag was appended, and otherwise the output is unchanged; `empty` equals the flag pushed |
| `HtmlFilter.Html.EndTag` | Resources/Private/Contrib/picoFeed/lib/PicoFeed/Filter/Html.php:240-245 | exactly one flag is removed from a non-empty stack, and an empty stack stays empty; the close tag is appended if and only if the popped flag is not true (an empty stack counts as not suppressed) and the tag is allowed; otherwise the output is unchanged |
| `HtmlFilter.Html.DataTag` | Resources/Private/Contrib/picoFeed/lib/PicoFeed/Filter/Html.php:254-259 | the output gains exactly the escaped text with no-break spaces replaced, and nothing else changes |
| `HtmlFilter.Html.PreFilter` | Resources/Private/Contrib/picoFeed/lib/PicoFeed/Filter/Html.php:155-158 | the input becomes the input with blacklisted tags removed |
| `HtmlFilter.Html.FilterRules` | Resources/Private/Contrib/picoFeed/lib/PicoFeed/Filter/Html.php:179-205 | returns the content with the site rules applied, using the rules of the stored config or, without one, of a default config; the site's full path selects the rules; without a `filter` key it returns the content |
| `HtmlFilter.Html.PostFilter` | Resources/Private/Contrib/picoFeed/lib/PicoFeed/Filter/Html.php:165-171 | the output becomes trim(removeMultipleBreakTags(filterRules(removeEmptyTags(output)))), in that order, and has no leading or trailing whitespace |
| `HtmlFilter.Html.Parse` | Resources/Private/Contrib/picoFeed/lib/PicoFeed/Filter/Html.php:136-143 | the parser passes each event, in order, to its handler; the new state is the handlers' run over the events; from an empty stack, the output gains exactly the reference markup and the stack holds the flags of the elements left open |
| `HtmlFilter.Html.Execute` | Resources/Private/Contrib/picoFeed/lib/PicoFeed/Filter/Html.php:132-148 | pre-filter, parse of the pre-filtered input, post-filter; config and policies unchanged; the returned output is the post-filtered markup the handlers wrote, with no surrounding whitespace |

## Left out

- XmlParser::HtmlToXml is not part of this model. It is the `htmlToXml` parameter of the constructor's environment.
- The XML parser (`xml_parser_create`, handler registration, case folding off, `xml_parse`) is left
  out because it is a foreign library. It becomes `env.parse`, the sequence of events it delivers. A
  parse error is the events delivered before the error, a prefix of the sequence. The model does not
  check that these events are well formed.
- The `$parser` argument of the handlers is dropped: the handlers never use it.
- The bodies of `Tag` (`isAllowed`, `isAllowedTag`, `openHtmlTag`, `closeHtmlTag`,
  `removeBlacklistedTags`, `removeEmptyTags`, `removeMultipleBreakTags`) and of `Attribute`
  (`filter`, `hasRequiredAttributes`, `addAttributes`, `toHtml`) are not part of this model. They
  are uninterpreted function values: no scheme, proxy, iframe, whitelist or empty-tag rule is
  modelled.
- `Filter::escape` is not part of this model. It is an uninterpreted function.
- `preg_match` and `preg_replace` are left out because PCRE semantics is beyond this model. They are
  the uninterpreted `Regex` functions. A `preg_match` error reads as "no match". A `preg_replace`
  error reads as `null`, which the model coerces to the empty string right away, also where PHP
  would hand `null` on to `removeMultipleBreakTags`.
- `RuleLoader`, the construction of `Config` and `Url::getFullPath` are configuration and I/O. They
  are `Config.getRules`, `Env.defaultConfig` and `Env.fullPath`.
- HtmlFilter.Html.SetConfig: the setters forwarded to `Attribute` and `Tag` (lines 109-120) are
  folded into two uninterpreted reconfiguration functions of the config. The fluent `return $this`
  is dropped.
- The uniqueness of PHP array keys (one entry per URL pattern and per search pattern) is not
  required of the rule lists. The lemmas hold for any list.
