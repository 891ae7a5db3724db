# Cloud Foundry manifest editor support, modelled in Dafny

This project models the string logic behind editing a Cloud Foundry `manifest.yml`
in the Orion editor (`manifestEditor.js`). That logic has two parts.

- **Content assist** (`computeContentAssist`) decides whether the edited file is a
  manifest (`isEnabled`). At offset 0 of the file it offers a skeleton manifest.
  Otherwise it offers every keyword, list key, object key and cached service name
  that starts with the typed prefix. In the branch that reads the file's metadata,
  it adds `name:`/`host:` proposals for the project (`getProjectName`, `slugify`) and
  `services:` proposals. It sorts the proposals by their text (`proposalCmp`). The
  skeleton carries the positions of its `<…>` placeholders (`getPositions`).
- **Validation** (`computeProblems`) splits the text with `/\r?\n/` and skips blank
  lines. It flags bad indentation and rejected `memory:`, `instances:`, `timeout:`
  and `no-route:` values, each with a line number and a column range. It ends with a
  "Missing application command" warning when an `applications:` line exists but no
  `command:` line does.

Every function is pure. Module-level `settings` (the file path and the cached service
names) and the outcomes of remote requests (the file's metadata and the manifest-info
check) are parameters. The validator's count, memory, `true\s*$`, key-line,
indentation and blank-line patterns are each written out twice: as a direct matcher
and as a declarative description of the strings it accepts, with a lemma that the
two agree. The leading `^\s+` is one function whose contract states the maximal
run, with a lemma that no other length has that property. `/\r?\n/` is pinned by
round-trip lemmas instead. The three rewrites inside `slugify` are character-by-character functions, each
pinned down by lemmas about how it acts on a concatenation. The JavaScript built-ins
the code relies on are modelled as follows:
- `indexOf` returns the leftmost occurrence.
- `split` handles a non-empty separator, including the final piece.
- `trim` and `\s` use the ECMAScript white-space set.
- `\w` is ASCII.
- `replace` with a global regular expression expands `$$`, `$&`, `` $` `` and `$'`.
- `/\r?\n/` drops the `\r` of each `\r\n`.
- A Dafny string is a sequence of Unicode code points. JavaScript's `length` and the
  indexes `indexOf` returns count UTF-16 code units instead: one per code point of
  the Basic Multilingual Plane and two for any other. The numbers that reach the
  editor use these units: the `end` column of a value problem and the offsets of
  `getPositions`. The model computes them with `Strings.Utf16Length`. Searching,
  splitting and trimming give the same strings either way, so those work on code
  points.

Modules, one file each: `Wrappers` (Option/Result), `Strings` (JavaScript string
built-ins), `Manifest` (`isEnabled`, `getProjectName`), `Slug` (`slugify`), `Positions`
(`getPositions`), `Proposals` (`proposalCmp` and the sort), `Template` (the skeleton
and its fill), `Assist` (`computeContentAssist`), `Patterns` (the validator's regular
expressions), `Lines` (`split(/\r?\n/)`), `Validator` (`computeProblems`), and
`Consistency`, which proves that the skeleton content assist offers passes the
validator without a problem.

Behaviour of the code worth knowing, all stated as lemmas:
- The synchronous skeleton branch (offset 0, no file path) cannot be reached.
  `isEnabled()` is false whenever the file path is null, so `computeContentAssist`
  returns `[]` before that branch (`Assist.TemplateBranchUnreachable`). Likewise,
  `computeProblems` always goes through the manifest-info request once it is enabled
  (`Validator.ComputeProblemsEnabled`).
- `proposalCmp` compares the inserted `proposal` text, not the `description`. The name
  and host proposals the metadata callback `unshift`s to the front are sorted again
  with all the others, so they do not stay first (`Assist.NameProposalNotPinned`).
- `getPositions` records `template.indexOf(match)`, so two equal placeholders would
  share the first one's offset. Each position is the match's own place only when the
  placeholders are distinct (`Positions.DistinctMarkersExactOffsets`).
- When the metadata lists no parent, `resp.Parents.pop()` yields `undefined` and the
  callback throws before it resolves its promise, so the promise never settles
  (`Assist.MetadataFailureModes`).
- The indentation check accepts only lines whose first character after the leading
  spaces is an ASCII letter or `-`. YAML comments, quoted keys and tab-indented lines
  are all reported as "Invalid indentation: mixed spaces and tabs"
  (`Validator.LineProblemsIff`, `Patterns.IndentOkIff`,
  `Validator.IndentationProblemRange`).

## Model

| member | source | states |
|---|---|---|
| `Manifest.IsEnabledIff` | bundles/org.eclipse.orion.client.cf/web/orion/cfui/manifestEditor.js:84-87 | the editor is enabled for a path exactly when the path is `manifest.yml` or ends in `/manifest.yml` (both directions) |
| `Manifest.EnabledEndsWithName` | bundles/org.eclipse.orion.client.cf/web/orion/cfui/manifestEditor.js:85-86 | an enabled path is `manifest.yml` or ends in `/manifest.yml` |
| `Manifest.EndsWithNameEnabled` | bundles/org.eclipse.orion.client.cf/web/orion/cfui/manifestEditor.js:85-86 | a path that is `manifest.yml` or ends in `/manifest.yml` is enabled |
| `Manifest.LastSegment` | bundles/org.eclipse.orion.client.cf/web/orion/cfui/manifestEditor.js:85 | the last piece of `split('/')` is the text after the last `/` (or the whole path) and holds no `/` |
| `Manifest.NotEnabledWithoutPath` | bundles/org.eclipse.orion.client.cf/web/orion/cfui/manifestEditor.js:85 | a null file path is never a manifest |
| `Manifest.GetProjectName` | bundles/org.eclipse.orion.client.cf/web/orion/cfui/manifestEditor.js:72-78 | a label without the separator (space, vertical bar, space) is returned unchanged; otherwise the result is the trimmed text between the first separator and the next one (or the end) |
| `Strings.IndexOfFrom` | bundles/org.eclipse.orion.client.cf/web/orion/cfui/manifestEditor.js:73 | `indexOf` from an index: an occurrence at or after it with none earlier, or none at all |
| `Strings.Utf16LengthBmpIff` | bundles/org.eclipse.orion.client.cf/web/orion/cfui/manifestEditor.js:344 | JavaScript's `length` equals the number of code points exactly when every code point is in the Basic Multilingual Plane |
| `Strings.Utf16LengthConcat` | bundles/org.eclipse.orion.client.cf/web/orion/cfui/manifestEditor.js:344 | JavaScript lengths add up over a concatenation |
| `Strings.SplitFromSpec` | bundles/org.eclipse.orion.client.cf/web/orion/cfui/manifestEditor.js:74 | the pieces of `split` hold no separator, each piece but the last ends at the leftmost occurrence of the separator after it, and joined with the separator they give back the text |
| `Strings.Split` | bundles/org.eclipse.orion.client.cf/web/orion/cfui/manifestEditor.js:74 | `split` gives at least one piece; the first piece ends at the first occurrence of the separator (the whole text when there is none); no piece holds the separator, each but the last ends at the leftmost occurrence, and joined with the separator they give back the text |
| `Strings.SplitUnique` | bundles/org.eclipse.orion.client.cf/web/orion/cfui/manifestEditor.js:74 | these properties determine the split: any pieces that satisfy them are the pieces `split` returns |
| `Strings.SplitJoin` | bundles/org.eclipse.orion.client.cf/web/orion/cfui/manifestEditor.js:85 | splitting pieces joined by a one-character separator gives back the pieces, when none of them holds the separator |
| `Strings.Trim` | bundles/org.eclipse.orion.client.cf/web/orion/cfui/manifestEditor.js:75 | `trim` returns a slice of the input with only white space around it, and the slice neither starts nor ends with white space |
| `Strings.TrimEmptyIff` | bundles/org.eclipse.orion.client.cf/web/orion/cfui/manifestEditor.js:317 | `trim()` is empty exactly when the line is all white space |
| `Strings.LeadingWhitespaceUnique` | bundles/org.eclipse.orion.client.cf/web/orion/cfui/manifestEditor.js:323 | `^\s+` matches the maximal run: a white-space prefix that no white space follows has exactly the matched length |
| `Slug.ToLower` | bundles/org.eclipse.orion.client.cf/web/orion/cfui/manifestEditor.js:81 | `toLowerCase` leaves no ASCII capital and introduces no white space |
| `Slug.ToLowerConcat` | bundles/org.eclipse.orion.client.cf/web/orion/cfui/manifestEditor.js:81 | lower-casing a concatenation lower-cases each part |
| `Slug.ToLowerChar` | bundles/org.eclipse.orion.client.cf/web/orion/cfui/manifestEditor.js:81 | a single character lower-cases to its own lower case (ASCII capitals to small letters, U+0130 to `i` and U+0307, U+212A to `k`) |
| `Slug.ToLowerPointwise` | bundles/org.eclipse.orion.client.cf/web/orion/cfui/manifestEditor.js:81 | without U+0130, lower-casing keeps the length and maps position `i` to the lower case of character `i` |
| `Slug.CollapseSpaces` | bundles/org.eclipse.orion.client.cf/web/orion/cfui/manifestEditor.js:81 | `replace(/\s+/g, '-')` leaves no white space, and leaves text without white space unchanged |
| `Slug.CollapseKeepsWord` | bundles/org.eclipse.orion.client.cf/web/orion/cfui/manifestEditor.js:81 | text without white space is kept as it is in front of the rest |
| `Slug.CollapseRun` | bundles/org.eclipse.orion.client.cf/web/orion/cfui/manifestEditor.js:81 | a maximal run of white space at the front becomes a single `-` |
| `Slug.CollapseWordRun` | bundles/org.eclipse.orion.client.cf/web/orion/cfui/manifestEditor.js:81 | a word, then a maximal run of white space, then the rest becomes the word, one `-` and the collapsed rest |
| `Slug.StripNonWord` | bundles/org.eclipse.orion.client.cf/web/orion/cfui/manifestEditor.js:81 | `replace(/[^\w\-]+/g, '')` keeps only `\w` and `-` characters of the input, and leaves text made of them unchanged |
| `Slug.StripNonWordConcat` | bundles/org.eclipse.orion.client.cf/web/orion/cfui/manifestEditor.js:81 | removing characters from a concatenation removes them from each part |
| `Slug.StripChar` | bundles/org.eclipse.orion.client.cf/web/orion/cfui/manifestEditor.js:81 | a single character is kept when it is in `\w` or is `-`, and removed otherwise |
| `Slug.Slugify` | bundles/org.eclipse.orion.client.cf/web/orion/cfui/manifestEditor.js:80-82 | a slug consists of lower-case ASCII letters, digits, `_` and `-` only, so it holds no white space |
| `Slug.ToLowerIdentity` | bundles/org.eclipse.orion.client.cf/web/orion/cfui/manifestEditor.js:81 | lower-casing a text of slug characters leaves it unchanged |
| `Slug.SlugifyFixedPoint` | bundles/org.eclipse.orion.client.cf/web/orion/cfui/manifestEditor.js:80-82 | a text is its own slug exactly when it consists of slug characters |
| `Slug.SlugifyIdempotent` | bundles/org.eclipse.orion.client.cf/web/orion/cfui/manifestEditor.js:80-82 | slugifying twice gives the same host as slugifying once |
| `Positions.WordRun` | bundles/org.eclipse.orion.client.cf/web/orion/cfui/manifestEditor.js:96 | the `\w+` part of a placeholder: a maximal run of word characters |
| `Positions.MarkerAtSpec` | bundles/org.eclipse.orion.client.cf/web/orion/cfui/manifestEditor.js:96 | the matcher finds a `<\w+>` match of length `n` at an index exactly when the text there is a placeholder of length `n` |
| `Positions.NoMarkerInside` | bundles/org.eclipse.orion.client.cf/web/orion/cfui/manifestEditor.js:96 | no match of `<\w+>` starts strictly inside another one |
| `Positions.MarkersDoNotOverlap` | bundles/org.eclipse.orion.client.cf/web/orion/cfui/manifestEditor.js:96 | two overlapping occurrences of placeholders are the same occurrence of the same placeholder |
| `Positions.MatchesFrom` | bundles/org.eclipse.orion.client.cf/web/orion/cfui/manifestEditor.js:96 | the global match yields every `<\w+>` match from an index on, each one really a match, in text order and without overlap |
| `Positions.Matches` | bundles/org.eclipse.orion.client.cf/web/orion/cfui/manifestEditor.js:96 | `template.match(/<\w+>/g)` yields all matches in order, and none exactly when no index starts a placeholder |
| `Positions.MatchIsMarker` | bundles/org.eclipse.orion.client.cf/web/orion/cfui/manifestEditor.js:96 | the text of every match is a `<\w+>` placeholder |
| `Positions.PositionOf` | bundles/org.eclipse.orion.client.cf/web/orion/cfui/manifestEditor.js:98-101 | a match's position is the first occurrence of its text (never after the match); its offset is the number of UTF-16 code units before that occurrence and its length the placeholder's length, and the two together stay within the template's length |
| `Positions.GetPositions` | bundles/org.eclipse.orion.client.cf/web/orion/cfui/manifestEditor.js:93-105 | fails (null `matches`) exactly when the template has no placeholder; otherwise gives one position per match, in match order, each the first occurrence of the match's text, counted in UTF-16 code units, with the placeholder's length |
| `Positions.FirstOccurrenceIsMatch` | bundles/org.eclipse.orion.client.cf/web/orion/cfui/manifestEditor.js:99 | with no repeated placeholder, the first occurrence of a match's text is the match itself, so its offset counts the code units before the match |
| `Positions.DistinctMarkersExactOffsets` | bundles/org.eclipse.orion.client.cf/web/orion/cfui/manifestEditor.js:97-102 | with distinct placeholders, every recorded offset is the number of code units before its own match, which is the match's index when the template lies in the Basic Multilingual Plane |
| `Proposals.LexLeTotal` | bundles/org.eclipse.orion.client.cf/web/orion/cfui/manifestEditor.js:89-91 | any two proposal texts are comparable |
| `Proposals.LexLeTransitive` | bundles/org.eclipse.orion.client.cf/web/orion/cfui/manifestEditor.js:89-91 | the comparison is transitive |
| `Proposals.LexLeAntisymmetric` | bundles/org.eclipse.orion.client.cf/web/orion/cfui/manifestEditor.js:89-91 | texts ordered both ways are equal |
| `Proposals.Insert` | bundles/org.eclipse.orion.client.cf/web/orion/cfui/manifestEditor.js:282 | inserting into a sorted list keeps it sorted and adds exactly the one proposal |
| `Proposals.Sort` | bundles/org.eclipse.orion.client.cf/web/orion/cfui/manifestEditor.js:282 | `sort(proposalCmp)` orders the proposals by their `proposal` text and is a permutation of its input |
| `Proposals.SortSortedIdentity` | bundles/org.eclipse.orion.client.cf/web/orion/cfui/manifestEditor.js:282 | an already sorted list is left as it is |
| `Proposals.SortSameElements` | bundles/org.eclipse.orion.client.cf/web/orion/cfui/manifestEditor.js:282 | sorting neither adds nor drops a proposal |
| `Template.Expand` | bundles/org.eclipse.orion.client.cf/web/orion/cfui/manifestEditor.js:151-152 | a replacement text without `$` is inserted literally |
| `Template.ReplaceLiteral` | bundles/org.eclipse.orion.client.cf/web/orion/cfui/manifestEditor.js:151-152 | a global replace by a `$`-free text is the same as splitting at the pattern and joining with the replacement |
| `Template.ReplaceAbsent` | bundles/org.eclipse.orion.client.cf/web/orion/cfui/manifestEditor.js:151 | a text without the pattern is left unchanged |
| `Template.FillIsLiteralSubstitution` | bundles/org.eclipse.orion.client.cf/web/orion/cfui/manifestEditor.js:150-152 | the `<host>` fill is always a literal substitution of the slug; the `<name>` fill is literal when the project name holds no `$` |
| `Template.ReplaceKeeps` | bundles/org.eclipse.orion.client.cf/web/orion/cfui/manifestEditor.js:151-152 | replacing a pattern keeps every occurrence of another text that no occurrence of the pattern overlaps |
| `Template.CommandSurvives` | bundles/org.eclipse.orion.client.cf/web/orion/cfui/manifestEditor.js:151-152 | filling `<name>` or `<host>` keeps the `<command>` placeholder |
| `Template.TemplateHasCommand` | bundles/org.eclipse.orion.client.cf/web/orion/cfui/manifestEditor.js:117-126 | the skeleton joined with any delimiter holds `<command>` |
| `Template.TemplateHasPositions` | bundles/org.eclipse.orion.client.cf/web/orion/cfui/manifestEditor.js:169-174 | `getPositions` on the unfilled skeleton does not throw, whatever the delimiter |
| `Template.FilledTemplateHasPositions` | bundles/org.eclipse.orion.client.cf/web/orion/cfui/manifestEditor.js:150-157 | the filled skeleton still holds `<command>`, so `getPositions` on it does not throw, for every project name |
| `Assist.PrefixProposals` | bundles/org.eclipse.orion.client.cf/web/orion/cfui/manifestEditor.js:181-188 | a candidate is proposed exactly when it starts with the prefix, as the rest of the candidate plus the stub, described by the candidate; never more proposals than candidates |
| `Assist.PrefixProposalsConcat` | bundles/org.eclipse.orion.client.cf/web/orion/cfui/manifestEditor.js:181-188 | the proposals for two candidate lists in a row are those of the first followed by those of the second: the `forEach` pushes in candidate order |
| `Assist.PrefixProposalsOne` | bundles/org.eclipse.orion.client.cf/web/orion/cfui/manifestEditor.js:182-187 | one candidate gives one proposal when it starts with the prefix and none otherwise; with the concatenation lemma this fixes the list, duplicates and order included |
| `Assist.PrefixProposalsCount` | bundles/org.eclipse.orion.client.cf/web/orion/cfui/manifestEditor.js:181-188 | a candidate starting with the prefix is proposed once per copy of it among the candidates |
| `Assist.StaticProposalsSpec` | bundles/org.eclipse.orion.client.cf/web/orion/cfui/manifestEditor.js:180-232 | the synchronous proposals are exactly the keywords, list keys (with `delimiter + indentation + "- "`), object keys (with `delimiter + indentation + "  "`) and cached services that start with the prefix |
| `Assist.StaticProposalsCount` | bundles/org.eclipse.orion.client.cf/web/orion/cfui/manifestEditor.js:180-232 | each static proposal occurs once per copy of its candidate among the candidates of its kind; a cached service named like a keyword adds a second copy of that keyword's proposal |
| `Assist.TemplateProposal` | bundles/org.eclipse.orion.client.cf/web/orion/cfui/manifestEditor.js:169-175 | the skeleton proposal is the template lines joined by the delimiter, described "Manifest template", and its positions are exactly what `getPositions` returns for that text (at least one) |
| `Assist.FilledTemplateProposal` | bundles/org.eclipse.orion.client.cf/web/orion/cfui/manifestEditor.js:150-158 | the filled skeleton proposal is the filled template, described "Manifest template", and its positions are exactly what `getPositions` returns for the filled text (at least one) |
| `Assist.ContentAssist` | bundles/org.eclipse.orion.client.cf/web/orion/cfui/manifestEditor.js:130-283 | outside a manifest the result is `[]`; every list delivered, at once or through the promise, is sorted by proposal text |
| `Assist.TemplateBranchUnreachable` | bundles/org.eclipse.orion.client.cf/web/orion/cfui/manifestEditor.js:139-178 | at offset 0 an enabled editor always answers with a promise, and the unfilled skeleton is never returned |
| `Assist.FilledTemplateOffered` | bundles/org.eclipse.orion.client.cf/web/orion/cfui/manifestEditor.js:141-166 | at offset 0 the promise resolves to the one skeleton filled with the last parent's project name |
| `Assist.ImmediateIsStatic` | bundles/org.eclipse.orion.client.cf/web/orion/cfui/manifestEditor.js:235-282 | a list comes back at once exactly when the offset is not 0 and the prefix could not become `name: `, `host: ` or `services: `; that list is a reordering of the static proposals |
| `Assist.MetadataFailureModes` | bundles/org.eclipse.orion.client.cf/web/orion/cfui/manifestEditor.js:239-276 | a failed metadata request rejects the promise; metadata without parents leaves it unsettled |
| `Assist.ServiceProposalsSpec` | bundles/org.eclipse.orion.client.cf/web/orion/cfui/manifestEditor.js:258-270 | one `services:` list-item proposal per cached service, in cache order (same length, k-th proposal for the k-th service), and no others |
| `Assist.ServiceProposalsCount` | bundles/org.eclipse.orion.client.cf/web/orion/cfui/manifestEditor.js:264-269 | a service listed twice in the cache is proposed twice |
| `Assist.MetadataUnsortedSpec` | bundles/org.eclipse.orion.client.cf/web/orion/cfui/manifestEditor.js:239-270 | before sorting, the callback's list holds the static proposals, the name and host proposals the prefix allows and the service proposals, and nothing else; as a multiset it is exactly their sum, so duplicates are kept |
| `Assist.MetadataProposalsSpec` | bundles/org.eclipse.orion.client.cf/web/orion/cfui/manifestEditor.js:239-272 | the callback resolves to a sorted list whose multiset is the static proposals plus the allowed name/host proposals plus one proposal per cached service; nothing is added, dropped or merged |
| `Assist.NameProposalNotPinned` | bundles/org.eclipse.orion.client.cf/web/orion/cfui/manifestEditor.js:251-272 | the unshifted name proposal does not stay first: with an empty prefix `buildpack: ` sorts before it |
| `Assist.SortedBeforeName` | bundles/org.eclipse.orion.client.cf/web/orion/cfui/manifestEditor.js:251-272 | every static proposal whose text sorts strictly before the name proposal's text comes before it in the delivered list, although the name proposal was put in front |
| `Assist.EmptyNameKeepsBoth` | bundles/org.eclipse.orion.client.cf/web/orion/cfui/manifestEditor.js:251-272 | with an empty prefix and an empty project name the name proposal equals the `name: ` keyword proposal, and the callback keeps both copies |
| `Assist.EmptyNameDuplicatesKeyword` | bundles/org.eclipse.orion.client.cf/web/orion/cfui/manifestEditor.js:107-108 | the delivered list holds the `name: ` keyword proposal twice when the project name is empty and the prefix is empty |
| `Patterns.DigitRun` | bundles/org.eclipse.orion.client.cf/web/orion/cfui/manifestEditor.js:349 | `[0-9]*` matches a maximal run of digits |
| `Patterns.DigitRunMaximal` | bundles/org.eclipse.orion.client.cf/web/orion/cfui/manifestEditor.js:349 | every run of digits at the start is at most the maximal one |
| `Patterns.CountEnd` | bundles/org.eclipse.orion.client.cf/web/orion/cfui/manifestEditor.js:349 | `[1-9][0-9]*` matches a prefix not followed by another digit |
| `Patterns.CountEndUnique` | bundles/org.eclipse.orion.client.cf/web/orion/cfui/manifestEditor.js:349 | a prefix matched by `[1-9][0-9]*` that no digit follows is the matcher's prefix |
| `Patterns.MatchCountIff` | bundles/org.eclipse.orion.client.cf/web/orion/cfui/manifestEditor.js:349 | the matcher accepts a value exactly when it is `[1-9][0-9]*` followed by white space only |
| `Patterns.MatchUnitTailIff` | bundles/org.eclipse.orion.client.cf/web/orion/cfui/manifestEditor.js:335 | trying `MB`, `GB`, `M`, `G` in turn accepts exactly a unit followed by white space only |
| `Patterns.MemoryMatched` | bundles/org.eclipse.orion.client.cf/web/orion/cfui/manifestEditor.js:335 | every value made of a count, one of the units `MB`, `GB`, `M`, `G` and trailing white space is accepted by the matcher |
| `Patterns.MatchedMemory` | bundles/org.eclipse.orion.client.cf/web/orion/cfui/manifestEditor.js:335 | every value the matcher accepts is a count, one of the units `MB`, `GB`, `M`, `G` and trailing white space |
| `Patterns.MatchMemoryIff` | bundles/org.eclipse.orion.client.cf/web/orion/cfui/manifestEditor.js:335 | the memory matcher and the declarative form agree (both directions) |
| `Patterns.ValueOf` | bundles/org.eclipse.orion.client.cf/web/orion/cfui/manifestEditor.js:335 | a key line is its leading spaces, the key and the value, in that order |
| `Patterns.LeadingSpacesUnique` | bundles/org.eclipse.orion.client.cf/web/orion/cfui/manifestEditor.js:337 | a run of spaces that no space follows is what `^ *` matches |
| `Patterns.KeyLineIff` | bundles/org.eclipse.orion.client.cf/web/orion/cfui/manifestEditor.js:390 | `^ *key` matches exactly when some run of spaces is followed by the key (both directions) |
| `Patterns.IndentOkIff` | bundles/org.eclipse.orion.client.cf/web/orion/cfui/manifestEditor.js:321 | the indentation matcher accepts a line exactly when a possibly empty run of spaces is followed by an ASCII letter or `-` (both alternatives of the expression, both directions) |
| `Patterns.IsTrueFlagIff` | bundles/org.eclipse.orion.client.cf/web/orion/cfui/manifestEditor.js:377 | the `true\s*$` test accepts a `no-route:` value exactly when it is `true` followed by white space only (both directions) |
| `Patterns.IsBlankIff` | bundles/org.eclipse.orion.client.cf/web/orion/cfui/manifestEditor.js:317 | a line is skipped exactly when it is all white space |
| `Lines.DropCR` | bundles/org.eclipse.orion.client.cf/web/orion/cfui/manifestEditor.js:304 | the optional `\r` before a `\n` is removed, and only that |
| `Lines.SplitLines` | bundles/org.eclipse.orion.client.cf/web/orion/cfui/manifestEditor.js:304 | `split(/\r?\n/)` gives at least one line, and no line holds a `\n` |
| `Lines.JoinCRLF` | bundles/org.eclipse.orion.client.cf/web/orion/cfui/manifestEditor.js:304 | joining with `\r\n` is joining with `\n` after adding a `\r` to every line but the last |
| `Lines.StripWithCR` | bundles/org.eclipse.orion.client.cf/web/orion/cfui/manifestEditor.js:304 | removing each delimiter's `\r` undoes adding it |
| `Lines.SplitLinesJoinCRLF` | bundles/org.eclipse.orion.client.cf/web/orion/cfui/manifestEditor.js:304 | splitting text joined with `\r\n` gives the lines back |
| `Lines.SplitLinesJoinLF` | bundles/org.eclipse.orion.client.cf/web/orion/cfui/manifestEditor.js:304 | splitting text joined with `\n` gives the lines back when no line but the last ends with `\r` |
| `Validator.RuleKey` | bundles/org.eclipse.orion.client.cf/web/orion/cfui/manifestEditor.js:335-388 | every checked key starts with an ASCII letter |
| `Validator.IndentationProblems` | bundles/org.eclipse.orion.client.cf/web/orion/cfui/manifestEditor.js:321-332 | a line is reported once for indentation exactly when it fails the indentation pattern, as an error on its own line |
| `Validator.IndentationProblemRange` | bundles/org.eclipse.orion.client.cf/web/orion/cfui/manifestEditor.js:323-331 | the indentation problem of line `number` reads "Invalid indentation: mixed spaces and tabs", starts at column 1 and ends just after the leading white space, or has no end when there is none |
| `Validator.RuleProblems` | bundles/org.eclipse.orion.client.cf/web/orion/cfui/manifestEditor.js:335-388 | a value check reports once exactly when the line holds the key with a rejected value, as an error on its own line |
| `Validator.RuleProblemRange` | bundles/org.eclipse.orion.client.cf/web/orion/cfui/manifestEditor.js:337-345 | a value problem sits on its 1-based line with the rule's message; it starts one column after the leading spaces and ends one past the line's JavaScript length, so it spans the UTF-16 code units of the key and value |
| `Validator.KeyValueUnits` | bundles/org.eclipse.orion.client.cf/web/orion/cfui/manifestEditor.js:337-345 | on a key line the leading spaces count one code unit each and the rest of the line is the key and its value; within the Basic Multilingual Plane the line's JavaScript length is its number of characters and the key and value are the text after the spaces |
| `Validator.RulesExclusive` | bundles/org.eclipse.orion.client.cf/web/orion/cfui/manifestEditor.js:335-388 | no line starts with two different checked keys |
| `Validator.KeyLineIndentOk` | bundles/org.eclipse.orion.client.cf/web/orion/cfui/manifestEditor.js:321 | a line that starts with a checked key passes the indentation check |
| `Validator.OnlyRule` | bundles/org.eclipse.orion.client.cf/web/orion/cfui/manifestEditor.js:335-388 | a line that fails a value check fails no other check |
| `Validator.LineChecks` | bundles/org.eclipse.orion.client.cf/web/orion/cfui/manifestEditor.js:321-388 | every diagnostic of a line's checks is an error of that line |
| `Validator.LineChecksAtMostOne` | bundles/org.eclipse.orion.client.cf/web/orion/cfui/manifestEditor.js:321-388 | the checks of one line report at most one problem |
| `Validator.LineProblems` | bundles/org.eclipse.orion.client.cf/web/orion/cfui/manifestEditor.js:316-388 | a blank line has no problem; any line has at most one, on its own line |
| `Validator.LineProblemsIff` | bundles/org.eclipse.orion.client.cf/web/orion/cfui/manifestEditor.js:316-388 | a line has a problem exactly when it is not blank and is badly indented or holds a rejected value |
| `Validator.SeenKeyIff` | bundles/org.eclipse.orion.client.cf/web/orion/cfui/manifestEditor.js:390-394 | the loop's flag for a key is cleared exactly when some non-blank line so far starts with the key |
| `Validator.ScanLines` | bundles/org.eclipse.orion.client.cf/web/orion/cfui/manifestEditor.js:311-403 | the loop reports the line problems in line order, then the warning when an `applications:` line exists and no `command: ` line does |
| `Validator.ProblemsInLineOrder` | bundles/org.eclipse.orion.client.cf/web/orion/cfui/manifestEditor.js:311-395 | every line problem carries its line number, and the problems come in strictly increasing line order |
| `Validator.ProblemsOfLine` | bundles/org.eclipse.orion.client.cf/web/orion/cfui/manifestEditor.js:311-395 | the problems reported for a line number are exactly that line's own problems |
| `Validator.MissingCommandIff` | bundles/org.eclipse.orion.client.cf/web/orion/cfui/manifestEditor.js:397-403 | the missing-command warning is reported exactly when some line starts an application list and no line holds `command: `, and when reported it is the last diagnostic and the only warning of its kind |
| `Validator.ComputeProblems` | bundles/org.eclipse.orion.client.cf/web/orion/cfui/manifestEditor.js:288-428 | nothing outside a manifest; in one, the scan's problems followed by at most one more |
| `Validator.ComputeProblemsEnabled` | bundles/org.eclipse.orion.client.cf/web/orion/cfui/manifestEditor.js:405-423 | in a manifest the problems come through the manifest-info promise, with the failed request's message appended last |
| `Consistency.ValueLineClean` | bundles/org.eclipse.orion.client.cf/web/orion/cfui/manifestEditor.js:335-388 | a line with a checked key and an accepted value has no problem |
| `Consistency.PlainLineClean` | bundles/org.eclipse.orion.client.cf/web/orion/cfui/manifestEditor.js:321-388 | a well-indented line that starts with no checked key has no problem |
| `Consistency.TemplateLinesClean` | bundles/org.eclipse.orion.client.cf/web/orion/cfui/manifestEditor.js:117-126 | no line of the skeleton has a problem |
| `Consistency.TemplateHasKeys` | bundles/org.eclipse.orion.client.cf/web/orion/cfui/manifestEditor.js:119-122 | the skeleton has both an `applications:` line and a `command: ` line |
| `Consistency.TemplatePassesValidation` | bundles/org.eclipse.orion.client.cf/web/orion/cfui/manifestEditor.js:117-126 | the unfilled skeleton, joined with `\n` or `\r\n`, passes the line scan with no problem and no warning |

## Left out

- The metadata request (`getMetadata`, `handleResponse`, manifestEditor.js:26-57) is network I/O with 202-Accepted polling. Its outcome is the `Metadata` parameter: the list of parent names, or a failure.
- `cacheServices` (manifestEditor.js:60-70) fills the service cache through the remote `cFClient`. The cache is part of the `Settings` parameter.
- `cfService.getManifestInfo` (manifestEditor.js:409-420) is a remote call. Its outcome is the `ManifestInfo` parameter.
- `editorContext.getText()` is asynchronous. The text it delivers is the `contents` parameter of `ComputeProblems`.
- The module-level `settings` object is mutable in the source: `computeProblems` writes `filePath` and `computeContentAssist` reads it. The model passes it explicitly.
- The metadata callback reads `settings.services` again when the request resolves (manifestEditor.js:258, :264). By then `cacheServices`, started from `computeProblems` (manifestEditor.js:300), may have filled the cache, so the deferred list can hold services that the immediate one did not. The model uses one `Settings` value for both reads.
- Promise timing is not modelled. `Reply` and `Validation` record only whether a result is immediate or deferred, and what the promise settles to.
- `Proposals.LexLeTotal`: `localeCompare` depends on the host's locale. It is modelled as lexicographic order on code points, so the proven order properties are those of that order.
- `Proposals.Sort`: only the stable insertion sort is modelled. The engine's own sort algorithm is not, and it yields the same result for a total order.
- `Slug.ToLower`: only the case mappings a slug can observe are modelled: ASCII capitals, U+0130 and U+212A. Every other character is kept as it is. Its real lower case is neither white space nor `\w`, so the later steps remove it either way.
- `Validator.ComputeProblems`: the ensures only bound the result around the line scan. The exact value in a manifest file is stated by `Validator.ComputeProblemsEnabled`.
- The `line` and `end` fields that the source leaves `undefined` (for whole-file problems and for an indentation problem without leading white space) are `None`. Severity `None` is the default error severity.
- Strings that are not well-formed UTF-16 (a lone surrogate code unit) have no Dafny `string` counterpart. The model covers the strings that are well-formed.
- `popupdialog.js` is DOM templating and event wiring, with no string logic to model.
