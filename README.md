# JabRef's basic regex search rule, modelled in Dafny

JabRef's simple search can treat each word of a query as a regular expression.
`BasicRegexSearchRule` does that work. `validateSearchStrings(query)` says whether
every word of the query compiles as a `java.util.regex.Pattern`. `applyRule(query, entry)`
returns 1 when every word is found in at least one field of a BibTeX entry, and 0
otherwise. A word that does not compile makes the result 0. When the rule is not
case-sensitive, the whole query is lower-cased before it is split into words, and
every pattern is compiled with `CASE_INSENSITIVE`. A field's text is first passed
through `RemoveLatexCommands`, then lower-cased when case is ignored, and then passed
through `RemoveLatexCommands` again before each pattern is tested on it.

The project has four modules:

- `Collaborators` (`collaborators.dfy`) holds the values the rule works on: an entry
  as a sequence of `Field(name, content)`, with `None` for a null content, and a
  compiled `Pattern`. It also holds `Library`, the external functions the rule calls.
  These are the query parser, `toLowerCase`, `RemoveLatexCommands.format`, the
  syntax check of `Pattern.compile` and `Matcher.find`. They are function-valued
  fields, so every proof holds for every choice of them. Nothing is assumed about
  them; in particular, normalisation is not assumed to be idempotent.
- `RegexSearchSpec` (`regex_search_spec.dfy`) states, as functions, what the rule
  computes. `Words` gives the parsed words and `CompileAll` the compiled patterns.
  `FieldText` gives the text a pattern is tested on. `Step` gives the match vector
  after one field and `Scan` gives it after a sequence of fields. `Validates` and
  `Verdict` give the two results.
- `RegexSearchLemmas` (`regex_search_lemmas.dfy`) proves what those functions mean.
- `RegexSearch` (`basic_regex_search_rule.dfy`) holds the class `BasicRegexSearchRule`.
  Its two methods keep the source's loops: the compile loop with its early exit,
  the `boolean[] matchFound` array filled in place by nested field and pattern loops,
  and the final early-exit scan of the array. Each method is proved equal to its
  specification function.

## Model

| member | source | states |
|---|---|---|
| `Collaborators.Compile` | src/main/java/net/sf/jabref/search/rules/BasicRegexSearchRule.java:69 | definition: stands in for `Pattern.compile(word, flags)` (lines 48 and 69), giving `Pattern(word, flags)` when the abstract syntax check accepts the word under those flags and None for a `PatternSyntaxException` |
| `RegexSearchSpec.Flags` | src/main/java/net/sf/jabref/search/rules/BasicRegexSearchRule.java:48 | definition: the conditional `caseSensitive ? 0 : Pattern.CASE_INSENSITIVE`, with `CASE_INSENSITIVE` = 2 |
| `RegexSearchSpec.Words` | src/main/java/net/sf/jabref/search/rules/BasicRegexSearchRule.java:59-64 | definition: the whole raw query is lower-cased when the rule ignores case (lines 41-44 and 59-62), then split into words by the parser (lines 45 and 64) |
| `RegexSearchSpec.CompileAll` | src/main/java/net/sf/jabref/search/rules/BasicRegexSearchRule.java:66-73 | compiling the words fails exactly when some word does not compile; on success there is one pattern per word, in word order, each compiled with the rule's flags |
| `RegexSearchSpec.FieldText` | src/main/java/net/sf/jabref/search/rules/BasicRegexSearchRule.java:82-91 | definition: the text a pattern is tested on is the content normalised by `RemoveLatexCommands`, lower-cased when case is ignored, then normalised again, in exactly that order |
| `RegexSearchSpec.Step` | src/main/java/net/sf/jabref/search/rules/BasicRegexSearchRule.java:80-96 | visiting one field keeps one slot per word; a field with null content leaves the vector unchanged, and a slot that is already true stays true |
| `RegexSearchSpec.Scan` | src/main/java/net/sf/jabref/search/rules/BasicRegexSearchRule.java:77-99 | the match vector after visiting any fields has exactly one slot per pattern |
| `RegexSearchSpec.Validates` | src/main/java/net/sf/jabref/search/rules/BasicRegexSearchRule.java:40-54 | definition: `validateSearchStrings` succeeds when compiling the parsed words with the rule's flags (`CompileAll`) yields patterns; `ValidatesMeaning` gives its meaning |
| `RegexSearchSpec.Verdict` | src/main/java/net/sf/jabref/search/rules/BasicRegexSearchRule.java:57-106 | the result of `applyRule` is always 0 or 1, and it is 1 only for a query `validateSearchStrings` accepts |
| `RegexSearch.BasicRegexSearchRule.constructor` | src/main/java/net/sf/jabref/search/rules/BasicRegexSearchRule.java:35-37 | the rule keeps the case-sensitivity it was built with |
| `RegexSearch.BasicRegexSearchRule.ValidateSearchStrings` | src/main/java/net/sf/jabref/search/rules/BasicRegexSearchRule.java:40-54 | the method returns true exactly when every word of the (lower-cased when case is ignored) parsed query compiles under the rule's flags; it agrees with `Validates` |
| `RegexSearch.BasicRegexSearchRule.ApplyRule` | src/main/java/net/sf/jabref/search/rules/BasicRegexSearchRule.java:57-106 | the compile loop, the in-place update of `matchFound` over all fields and patterns, and the final all-true scan return exactly `Verdict`; the loop invariant says `matchFound` equals `Scan` of the fields visited so far |
| `RegexSearchLemmas.ScanSlotMeaning` | src/main/java/net/sf/jabref/search/rules/BasicRegexSearchRule.java:77-99 | after visiting fields, slot i is true exactly when pattern i occurs in the text of some field whose content is not null |
| `RegexSearchLemmas.ScanStartsFalse` | src/main/java/net/sf/jabref/search/rules/BasicRegexSearchRule.java:77 | before any field is visited there is one slot per word and every slot is false |
| `RegexSearchLemmas.ScanMonotone` | src/main/java/net/sf/jabref/search/rules/BasicRegexSearchRule.java:93 | a slot that is true after some fields stays true whatever fields are visited afterwards |
| `RegexSearchLemmas.NullFieldIgnored` | src/main/java/net/sf/jabref/search/rules/BasicRegexSearchRule.java:80-81 | a field with null content, at any position of the entry, leaves the whole match vector unchanged |
| `RegexSearchLemmas.ScanOrderIndependent` | src/main/java/net/sf/jabref/search/rules/BasicRegexSearchRule.java:79-80 | two entries holding the same fields in any order give the same match vector |
| `RegexSearchLemmas.ValidatesMeaning` | src/main/java/net/sf/jabref/search/rules/BasicRegexSearchRule.java:40-54 | `validateSearchStrings` is false exactly when at least one parsed word fails to compile under the rule's flags |
| `RegexSearchLemmas.VerdictMeaning` | src/main/java/net/sf/jabref/search/rules/BasicRegexSearchRule.java:77-105 | `applyRule` gives 1 exactly when every word compiles and, for every word i, some field with content has a text in which pattern i is found |
| `RegexSearchLemmas.InvalidQueryNeverMatches` | src/main/java/net/sf/jabref/search/rules/BasicRegexSearchRule.java:59-73 | a query that `validateSearchStrings` rejects gives 0 on every entry, because both operations lower-case, parse and compile alike |
| `RegexSearchLemmas.EmptyQueryMatchesEverything` | src/main/java/net/sf/jabref/search/rules/BasicRegexSearchRule.java:45-105 | a query that parses to zero words is valid and gives 1 on every entry, including an entry with no fields |
| `RegexSearchLemmas.NoContentMatchesOnlyEmptyQuery` | src/main/java/net/sf/jabref/search/rules/BasicRegexSearchRule.java:80-105 | on an entry where every field's content is null, `applyRule` gives 1 exactly when the query has no words |
| `RegexSearchLemmas.VerdictOrderIndependent` | src/main/java/net/sf/jabref/search/rules/BasicRegexSearchRule.java:79-80 | the verdict does not depend on the order in which the entry's fields are visited |
| `RegexSearchLemmas.CaseInsensitiveQueriesAgree` | src/main/java/net/sf/jabref/search/rules/BasicRegexSearchRule.java:59-64 | for a case-insensitive rule, two queries with the same lower-case form get the same validation and the same verdict on every entry |

The steps on a field's text follow the code's order exactly (lines 82-91):
normalise, lower-case when case is ignored, then normalise again. `FieldText` does
the same, and the second normalisation is kept even though it may be redundant.

## Left out

- `BasicSearchRule.parseQuery` is not part of this model. It is kept as an abstract function from the query string to its words, so quoted phrases and unterminated quotes are not modelled.
- `String.toLowerCase` is an abstract function. Its Unicode rules and its locale dependence are not modelled. The model does keep that it is applied to the raw query, metacharacters included, before parsing.
- `RemoveLatexCommands.format` is not part of this model. It is an abstract total function, and it is not assumed to be idempotent.
- `java.util.regex` is foreign code. `Pattern.compile` is modelled as an abstract syntax check on the regex and its flags, and `Matcher.find` on a fresh matcher as an abstract predicate "the pattern occurs somewhere in the text". Catastrophic backtracking and any other exception than `PatternSyntaxException` are not modelled.
- `BibtexEntry` storage: an entry is a sequence of (name, content) pairs in `getAllFields` order. That field names are unique is not required; the proofs hold without it. `Object.toString` of a field's content is taken to be the content string itself.
- Re-testing matched words: the `||` in line 93 skips `find` for a word already matched. Dafny's `||` short-circuits in the same way, but because `find` is pure, the model does not state that it is not re-evaluated.
- `src/main/java/org/jabref/gui/dialogs/BackupUIManager.java` is not part of this model: it is JavaFX dialog flow, backup-file I/O and UI-thread work, with no sequential logic to state.
