/** The analysis of a build manifest (`requirements.txt`, `*.gradle`,
    `pom.xml`, `package.json`; analyze_repo_multi_trhead.py:186-199): every
    word of the file that a category lists, for every category but `langs`. */
module Manifest {
  import opened Wrappers
  import opened Lists
  import opened Taxonomy
  import Text

  /** The file's content once decoded; `Undecodable` stands for the decoding
      error the analysis swallows. */
  datatype ManifestSource = Undecodable | Decoded(content: string)

  /** The manifest record: its path and, when the file could be read, its
      tags. */
  datatype FileAnalysis = FileAnalysis(path: string, tags: Option<Tags>)

  /** The file's lines joined by blanks, as the analysis reads it. */
  function JoinedLines(content: string): (r: string)
    ensures forall c | c in r :: !Text.IsLineBreak(c)
  {
    Text.JoinLinesShape(content);
    Text.Join(" ", Text.SplitLines(content))
  }

  /** Tags the file with every listed word it contains. The tag lists come
      from Python sets, so only their elements are determined. */
  method AnalyzeFile(tax: Taxonomy, path: string, src: ManifestSource) returns (r: FileAnalysis)
    ensures r.path == path
    ensures src.Undecodable? ==> r.tags.None?
    ensures src.Decoded? ==> r.tags.Some? && r.tags.value.Keys == set c | c in TaggedCategories
    ensures src.Decoded? ==> forall c | c in r.tags.value ::
      NoDuplicates(r.tags.value[c])
      && Elements(r.tags.value[c]) == Matches(Text.GetWords(JoinedLines(src.content)), tax.Words(c))
  {
    if src.Undecodable? {
      return FileAnalysis(path, None);
    }
    var words := Text.GetWords(JoinedLines(src.content));
    var tags := MatchCategories(tax, words);
    r := FileAnalysis(path, Some(tags));
  }

  /** `for k in keys: if k != 'langs': res[k] = match_alls(...)`. */
  method MatchCategories(tax: Taxonomy, words: seq<string>) returns (tags: Tags)
    ensures tags.Keys == set c | c in TaggedCategories
    ensures forall c | c in tags :: NoDuplicates(tags[c]) && Elements(tags[c]) == Matches(words, tax.Words(c))
  {
    tags := map[];
    for i := 0 to |TaggedCategories|
      invariant forall c :: c in tags <==> c in TaggedCategories[..i]
      invariant forall c | c in tags :: NoDuplicates(tags[c]) && Elements(tags[c]) == Matches(words, tax.Words(c))
    {
      var c := TaggedCategories[i];
      var found := MatchAlls(words, tax.Words(c));
      assert TaggedCategories[..i + 1] == TaggedCategories[..i] + [c];
      tags := tags[c := found];
    }
    assert TaggedCategories[..|TaggedCategories|] == TaggedCategories;
  }

  /** A manifest tag is a word of the file that the category lists, and
      every such word is a tag; the order of the words and of the lines does
      not matter. */
  lemma ManifestTagsAreMatches(tax: Taxonomy, content: string, other: string, c: Category)
    requires Elements(Text.GetWords(JoinedLines(content))) == Elements(Text.GetWords(JoinedLines(other)))
    ensures Matches(Text.GetWords(JoinedLines(content)), tax.Words(c)) == Matches(Text.GetWords(JoinedLines(other)), tax.Words(c))
    ensures forall w | w in Matches(Text.GetWords(JoinedLines(content)), tax.Words(c)) ::
      w in tax.Words(c) && |w| > 2 && w in Text.GetWords(JoinedLines(content))
  {
    MatchesOrderIndependent(Text.GetWords(JoinedLines(content)), Text.GetWords(JoinedLines(other)), tax.Words(c));
    Text.GetWordsShape(JoinedLines(content));
  }
}
