/**
 * What BasicRegexSearchRule computes, as functions: how a query becomes
 * words and patterns, which text of a field a pattern is tested against,
 * how the match vector evolves field by field, and the final verdict.
 */
module RegexSearchSpec {
  import opened Collaborators

  /** The flags every word is compiled with: 0, or CASE_INSENSITIVE when the rule ignores case. */
  function Flags(caseSensitive: bool): int
  {
    if caseSensitive then 0 else CASE_INSENSITIVE
  }

  /** The words of a query: the whole raw query is lower-cased first when case is ignored, then parsed. */
  function Words(lib: Library, caseSensitive: bool, query: string): seq<string>
  {
    var searchString := if caseSensitive then query else lib.toLowerCase(query);
    lib.parseQuery(searchString)
  }

  /**
   * Compiles the words left to right, as the rule's loop does: the first word
   * that does not compile ends the attempt with no patterns at all.
   */
  function CompileAll(lib: Library, words: seq<string>, flags: int): (r: Option<seq<Pattern>>)
    ensures r.None? <==> exists i :: 0 <= i < |words| && !lib.syntaxOk(words[i], flags)
    ensures r.Some? ==> |r.value| == |words|
    ensures r.Some? ==> forall i :: 0 <= i < |words| ==> r.value[i] == Pattern(words[i], flags)
  {
    if words == [] then Some([])
    else
      match Compile(lib, words[0], flags)
      case None => None
      case Some(p) =>
        match CompileAll(lib, words[1..], flags)
        case None =>
          assert forall i :: 0 <= i < |words| - 1 ==> words[1..][i] == words[i + 1];
          None
        case Some(ps) => Some([p] + ps)
  }

  /** validateSearchStrings: every word of the query compiles under the rule's flags. */
  function Validates(lib: Library, caseSensitive: bool, query: string): bool
  {
    CompileAll(lib, Words(lib, caseSensitive, query), Flags(caseSensitive)).Some?
  }

  /**
   * The text a pattern is tested against for a field with content `content`:
   * normalised, lower-cased when case is ignored, then normalised again.
   */
  function FieldText(lib: Library, caseSensitive: bool, content: string): string
  {
    var fieldContent := lib.removeLatexCommands(content);
    var cased := if caseSensitive then fieldContent else lib.toLowerCase(fieldContent);
    lib.removeLatexCommands(cased)
  }

  /** Field `f` has content, and pattern `p` occurs in that field's text. */
  predicate Hits(lib: Library, caseSensitive: bool, p: Pattern, f: Field)
  {
    f.content.Some? && lib.find(p, FieldText(lib, caseSensitive, f.content.value))
  }

  /** Some field of `fields` is hit by `p`: the declarative meaning of one slot of the match vector. */
  predicate FoundInSomeField(lib: Library, caseSensitive: bool, p: Pattern, fields: seq<Field>)
  {
    exists f :: f in fields && Hits(lib, caseSensitive, p, f)
  }

  /**
   * The match vector after visiting field `f`: a field without content leaves it
   * as it is; otherwise each slot is OR-ed with whether its pattern occurs in the
   * field's text.
   */
  function Step(lib: Library, caseSensitive: bool, slots: seq<bool>, patterns: seq<Pattern>, f: Field): (next: seq<bool>)
    requires |slots| == |patterns|
    ensures |next| == |slots|
    ensures f.content.None? ==> next == slots
    ensures forall i :: 0 <= i < |slots| && slots[i] ==> next[i]
  {
    match f.content
    case None => slots
    case Some(c) =>
      seq(|slots|, i requires 0 <= i < |slots| =>
        slots[i] || lib.find(patterns[i], FieldText(lib, caseSensitive, c)))
  }

  /** The match vector after visiting `fields` in order, starting with every slot false. */
  function Scan(lib: Library, caseSensitive: bool, patterns: seq<Pattern>, fields: seq<Field>): (slots: seq<bool>)
    ensures |slots| == |patterns|
  {
    if fields == [] then seq(|patterns|, i => false)
    else
      var last := |fields| - 1;
      Step(lib, caseSensitive, Scan(lib, caseSensitive, patterns, fields[..last]), patterns, fields[last])
  }

  /** Every slot of the match vector is true. */
  predicate AllTrue(slots: seq<bool>)
  {
    forall i :: 0 <= i < |slots| ==> slots[i]
  }

  /** applyRule's result: 0 when a word does not compile, otherwise 1 exactly when every slot ends true. */
  function Verdict(lib: Library, caseSensitive: bool, query: string, entry: Entry): (r: int)
    ensures r == 0 || r == 1
    ensures r == 1 ==> Validates(lib, caseSensitive, query)
  {
    match CompileAll(lib, Words(lib, caseSensitive, query), Flags(caseSensitive))
    case None => 0
    case Some(patterns) => if AllTrue(Scan(lib, caseSensitive, patterns, entry)) then 1 else 0
  }
}
