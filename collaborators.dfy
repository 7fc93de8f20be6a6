/**
 * The values the regex search rule works on, and the collaborators it calls
 * but does not define: the query parser it inherits from BasicSearchRule,
 * String.toLowerCase, RemoveLatexCommands.format and java.util.regex.
 * The collaborators are kept abstract: they are function-valued fields of
 * `Library`, so every fact proved about the rule holds for every choice of them.
 */
module Collaborators {

  /** A Java reference that may be null. */
  datatype Option<+T> = None | Some(value: T)

  /** One field of a BibtexEntry: its name and its content, null when absent. */
  datatype Field = Field(name: string, content: Option<string>)

  /** A BibtexEntry, seen through getAllFields (the names, in visiting order) and getField. */
  type Entry = seq<Field>

  /** java.util.regex.Pattern.CASE_INSENSITIVE */
  const CASE_INSENSITIVE: int := 0x02

  /** A compiled java.util.regex.Pattern: the regular expression and the flags it was compiled with. */
  datatype Pattern = Pattern(regex: string, flags: int)

  /** The external functions the rule calls. */
  datatype Library = Library(
    // BasicSearchRule.parseQuery: splits a query into words
    parseQuery: string -> seq<string>,
    // String.toLowerCase
    toLowerCase: string -> string,
    // RemoveLatexCommands.format
    removeLatexCommands: string -> string,
    // Pattern.compile(regex, flags) returns instead of throwing PatternSyntaxException
    syntaxOk: (string, int) -> bool,
    // pattern.matcher(text).find() on a fresh matcher: the pattern occurs somewhere in text
    find: (Pattern, string) -> bool)

  /** Pattern.compile(regex, flags): the compiled pattern, or None for a PatternSyntaxException. */
  function Compile(lib: Library, regex: string, flags: int): Option<Pattern>
  {
    if lib.syntaxOk(regex, flags) then Some(Pattern(regex, flags)) else None
  }
}
