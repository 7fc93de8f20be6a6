/**
 * Properties of the regex search rule's specification: what a slot of the
 * match vector means, that slots never turn false again, that fields without
 * content and the order of fields do not matter, and what the verdict means.
 */
module RegexSearchLemmas {
  import opened Collaborators
  import opened RegexSearchSpec

  /** Slot i of the match vector is true exactly when pattern i occurs in the text of some field with content. */
  lemma {:induction false} ScanSlotMeaning(lib: Library, caseSensitive: bool, patterns: seq<Pattern>, fields: seq<Field>, i: int)
    requires 0 <= i < |patterns|
    ensures Scan(lib, caseSensitive, patterns, fields)[i] <==> FoundInSomeField(lib, caseSensitive, patterns[i], fields)
  {
    if fields != [] {
      var last := |fields| - 1;
      var init := fields[..last];
      ScanSlotMeaning(lib, caseSensitive, patterns, init, i);
      assert fields == init + [fields[last]];
      if Hits(lib, caseSensitive, patterns[i], fields[last]) {
        assert fields[last] in fields;
      }
      if FoundInSomeField(lib, caseSensitive, patterns[i], init) {
        var f :| f in init && Hits(lib, caseSensitive, patterns[i], f);
        assert f in fields;
      }
      if FoundInSomeField(lib, caseSensitive, patterns[i], fields) {
        var f :| f in fields && Hits(lib, caseSensitive, patterns[i], f);
        assert f in init || f == fields[last];
      }
    }
  }

  /** Every slot starts false: before any field is visited, no word has been found. */
  lemma ScanStartsFalse(lib: Library, caseSensitive: bool, patterns: seq<Pattern>)
    ensures |Scan(lib, caseSensitive, patterns, [])| == |patterns|
    ensures forall i :: 0 <= i < |patterns| ==> !Scan(lib, caseSensitive, patterns, [])[i]
  {
  }

  /** A slot that is true after some fields stays true whatever fields are visited after them. */
  lemma ScanMonotone(lib: Library, caseSensitive: bool, patterns: seq<Pattern>, visited: seq<Field>, later: seq<Field>, i: int)
    requires 0 <= i < |patterns|
    requires Scan(lib, caseSensitive, patterns, visited)[i]
    ensures Scan(lib, caseSensitive, patterns, visited + later)[i]
  {
    ScanSlotMeaning(lib, caseSensitive, patterns, visited, i);
    ScanSlotMeaning(lib, caseSensitive, patterns, visited + later, i);
    var f :| f in visited && Hits(lib, caseSensitive, patterns[i], f);
    assert f in visited + later;
  }

  /** A field whose content is null, wherever it stands in the entry, changes no slot. */
  lemma NullFieldIgnored(lib: Library, caseSensitive: bool, patterns: seq<Pattern>, before: seq<Field>, name: string, after: seq<Field>)
    ensures Scan(lib, caseSensitive, patterns, before + [Field(name, None)] + after)
         == Scan(lib, caseSensitive, patterns, before + after)
  {
    var withNull := before + [Field(name, None)] + after;
    var without := before + after;
    forall i | 0 <= i < |patterns|
      ensures Scan(lib, caseSensitive, patterns, withNull)[i] == Scan(lib, caseSensitive, patterns, without)[i]
    {
      ScanSlotMeaning(lib, caseSensitive, patterns, withNull, i);
      ScanSlotMeaning(lib, caseSensitive, patterns, without, i);
      if FoundInSomeField(lib, caseSensitive, patterns[i], withNull) {
        var f :| f in withNull && Hits(lib, caseSensitive, patterns[i], f);
        assert f in without;
      }
      if FoundInSomeField(lib, caseSensitive, patterns[i], without) {
        var f :| f in without && Hits(lib, caseSensitive, patterns[i], f);
        assert f in withNull;
      }
    }
  }

  /** The match vector does not depend on the order in which the fields are visited. */
  lemma ScanOrderIndependent(lib: Library, caseSensitive: bool, patterns: seq<Pattern>, fields: seq<Field>, reordered: seq<Field>)
    requires multiset(fields) == multiset(reordered)
    ensures Scan(lib, caseSensitive, patterns, fields) == Scan(lib, caseSensitive, patterns, reordered)
  {
    forall i | 0 <= i < |patterns|
      ensures Scan(lib, caseSensitive, patterns, fields)[i] == Scan(lib, caseSensitive, patterns, reordered)[i]
    {
      ScanSlotMeaning(lib, caseSensitive, patterns, fields, i);
      ScanSlotMeaning(lib, caseSensitive, patterns, reordered, i);
      if FoundInSomeField(lib, caseSensitive, patterns[i], fields) {
        var f :| f in fields && Hits(lib, caseSensitive, patterns[i], f);
        assert f in multiset(reordered);
      }
      if FoundInSomeField(lib, caseSensitive, patterns[i], reordered) {
        var f :| f in reordered && Hits(lib, caseSensitive, patterns[i], f);
        assert f in multiset(fields);
      }
    }
  }

  /** validateSearchStrings is false exactly when some parsed word does not compile under the rule's flags. */
  lemma ValidatesMeaning(lib: Library, caseSensitive: bool, query: string)
    ensures var words := Words(lib, caseSensitive, query);
      !Validates(lib, caseSensitive, query) <==>
        exists i :: 0 <= i < |words| && !lib.syntaxOk(words[i], Flags(caseSensitive))
  {
  }

  /**
   * applyRule gives 1 exactly when every word compiles and every word, compiled
   * with the rule's flags, occurs in the text of some field with content.
   */
  lemma VerdictMeaning(lib: Library, caseSensitive: bool, query: string, entry: Entry)
    ensures var words := Words(lib, caseSensitive, query);
      Verdict(lib, caseSensitive, query, entry) == 1 <==>
        Validates(lib, caseSensitive, query) &&
        forall i :: 0 <= i < |words| ==>
          FoundInSomeField(lib, caseSensitive, Pattern(words[i], Flags(caseSensitive)), entry)
  {
    var words := Words(lib, caseSensitive, query);
    var flags := Flags(caseSensitive);
    var compiled := CompileAll(lib, words, flags);
    if compiled.Some? {
      var patterns := compiled.value;
      var slots := Scan(lib, caseSensitive, patterns, entry);
      forall i | 0 <= i < |words|
        ensures slots[i] <==> FoundInSomeField(lib, caseSensitive, Pattern(words[i], flags), entry)
      {
        ScanSlotMeaning(lib, caseSensitive, patterns, entry, i);
      }
    }
  }

  /** A query that validateSearchStrings rejects gives 0 on every entry. */
  lemma InvalidQueryNeverMatches(lib: Library, caseSensitive: bool, query: string, entry: Entry)
    requires !Validates(lib, caseSensitive, query)
    ensures Verdict(lib, caseSensitive, query, entry) == 0
  {
  }

  /** A query that parses to no words is valid and gives 1 on every entry, even one with no fields. */
  lemma EmptyQueryMatchesEverything(lib: Library, caseSensitive: bool, query: string, entry: Entry)
    requires Words(lib, caseSensitive, query) == []
    ensures Validates(lib, caseSensitive, query)
    ensures Verdict(lib, caseSensitive, query, entry) == 1
  {
  }

  /** On an entry none of whose fields has content, applyRule gives 1 exactly when the query has no words. */
  lemma NoContentMatchesOnlyEmptyQuery(lib: Library, caseSensitive: bool, query: string, entry: Entry)
    requires forall k :: 0 <= k < |entry| ==> entry[k].content.None?
    ensures Verdict(lib, caseSensitive, query, entry) == 1 <==> Words(lib, caseSensitive, query) == []
  {
    var words := Words(lib, caseSensitive, query);
    VerdictMeaning(lib, caseSensitive, query, entry);
    if words != [] {
      var first := Pattern(words[0], Flags(caseSensitive));
      forall f | f in entry
        ensures !Hits(lib, caseSensitive, first, f)
      {
        var k :| 0 <= k < |entry| && entry[k] == f;
      }
      assert !FoundInSomeField(lib, caseSensitive, first, entry);
    }
  }

  /** applyRule's verdict does not depend on the order in which the entry's fields are visited. */
  lemma VerdictOrderIndependent(lib: Library, caseSensitive: bool, query: string, entry: Entry, reordered: Entry)
    requires multiset(entry) == multiset(reordered)
    ensures Verdict(lib, caseSensitive, query, entry) == Verdict(lib, caseSensitive, query, reordered)
  {
    var compiled := CompileAll(lib, Words(lib, caseSensitive, query), Flags(caseSensitive));
    if compiled.Some? {
      ScanOrderIndependent(lib, caseSensitive, compiled.value, entry, reordered);
    }
  }

  /**
   * When case is ignored, the query is lower-cased as a whole before parsing, so
   * two queries with the same lower-case form get the same verdict on every entry.
   */
  lemma CaseInsensitiveQueriesAgree(lib: Library, query: string, other: string, entry: Entry)
    requires lib.toLowerCase(query) == lib.toLowerCase(other)
    ensures Validates(lib, false, query) == Validates(lib, false, other)
    ensures Verdict(lib, false, query, entry) == Verdict(lib, false, other, entry)
  {
  }
}
