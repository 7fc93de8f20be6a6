/**
 * BasicRegexSearchRule: the simple search rule that treats every word of a
 * query as a regular expression and accepts an entry when each word is found
 * in at least one of the entry's fields.
 */
module RegexSearch {
  import opened Collaborators
  import opened RegexSearchSpec

  class BasicRegexSearchRule {
    /** Fixed at construction; when false, query and field text are lower-cased and patterns ignore case. */
    const caseSensitive: bool
    /** The parser, lower-casing, LaTeX-command remover and regex engine the rule calls. */
    const lib: Library

    constructor (caseSensitive: bool, lib: Library)
      ensures this.caseSensitive == caseSensitive && this.lib == lib
    {
      this.caseSensitive := caseSensitive;
      this.lib := lib;
    }

    /** Whether every word of the query compiles as a pattern. */
    method ValidateSearchStrings(query: string) returns (ok: bool)
      ensures ok == Validates(lib, caseSensitive, query)
      ensures var words := Words(lib, caseSensitive, query);
        ok <==> forall i :: 0 <= i < |words| ==> lib.syntaxOk(words[i], Flags(caseSensitive))
    {
      var searchString := query;
      if !caseSensitive {
        searchString := lib.toLowerCase(searchString);
      }
      var words := lib.parseQuery(searchString);
      var flags := if caseSensitive then 0 else CASE_INSENSITIVE;
      var i := 0;
      while i < |words|
        invariant 0 <= i <= |words|
        invariant forall j :: 0 <= j < i ==> lib.syntaxOk(words[j], flags)
      {
        if Compile(lib, words[i], flags).None? {
          // PatternSyntaxException
          return false;
        }
        i := i + 1;
      }
      return true;
    }

    /** 1 when every word of the query is found in some field of the entry, 0 otherwise. */
    method ApplyRule(query: string, entry: Entry) returns (r: int)
      ensures r == Verdict(lib, caseSensitive, query, entry)
    {
      var searchString := query;
      if !caseSensitive {
        searchString := lib.toLowerCase(searchString);
      }
      var words := lib.parseQuery(searchString);
      var flags := if caseSensitive then 0 else CASE_INSENSITIVE;
      ghost var compiled := CompileAll(lib, words, flags);

      var patterns: seq<Pattern> := [];
      var w := 0;
      while w < |words|
        invariant 0 <= w <= |words|
        invariant |patterns| == w
        invariant forall j :: 0 <= j < w ==> lib.syntaxOk(words[j], flags)
        invariant forall j :: 0 <= j < w ==> patterns[j] == Pattern(words[j], flags)
      {
        match Compile(lib, words[w], flags) {
          case None =>
            // PatternSyntaxException
            return 0;
          case Some(p) =>
            patterns := patterns + [p];
        }
        w := w + 1;
      }
      assert compiled.Some?;
      assert compiled.value == patterns;

      // The match vector: one slot per word, each false until its word is found.
      var matchFound := new bool[|words|](_ => false);

      var k := 0;
      while k < |entry|
        invariant 0 <= k <= |entry|
        invariant matchFound.Length == |patterns|
        invariant matchFound[..] == Scan(lib, caseSensitive, patterns, entry[..k])
      {
        var field := entry[k];
        ghost var before := matchFound[..];
        match field.content {
          case None =>
          case Some(content) =>
            var fieldContent := lib.removeLatexCommands(content);
            if !caseSensitive {
              fieldContent := lib.toLowerCase(fieldContent);
            }
            var index := 0;
            // Words already matched are not tested again.
            while index < |patterns|
              invariant 0 <= index <= |patterns|
              invariant forall j :: 0 <= j < index ==>
                matchFound[j] == (before[j] || lib.find(patterns[j], FieldText(lib, caseSensitive, content)))
              invariant forall j :: index <= j < |patterns| ==> matchFound[j] == before[j]
            {
              var fieldContentNoBrackets := lib.removeLatexCommands(fieldContent);
              matchFound[index] := matchFound[index] || lib.find(patterns[index], fieldContentNoBrackets);
              index := index + 1;
            }
        }
        assert entry[..k + 1][..k] == entry[..k];
        assert matchFound[..] == Step(lib, caseSensitive, before, patterns, field);
        k := k + 1;
      }
      assert entry[..k] == entry;

      var j := 0;
      while j < matchFound.Length
        invariant 0 <= j <= matchFound.Length
        invariant forall m :: 0 <= m < j ==> matchFound[m]
      {
        if !matchFound[j] {
          return 0; // some word was found in no field
        }
        j := j + 1;
      }
      return 1; // every word was found in some field
    }
  }
}
