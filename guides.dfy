/**
 * The aggregation in `main` (index.js:266-310), without the network: the
 * markdown blobs under `guides/` are picked from the repository tree, each is
 * read, split, parsed and given an order, the records are sorted, and the
 * document is assembled. Downloading is the `fetch` parameter.
 */
module Guides {
  import opened JsText
  import opened Frontmatter
  import opened OrderResolution
  import opened RecordOrder
  import opened Assembly
  import opened Cli

  /** One entry of the recursive git tree listing. */
  datatype TreeEntry = TreeEntry(path: string, kind: string)

  /** A value, or the message of the error the program throws. */
  datatype Result<T> = Success(value: T) | Failure(error: string)

  const GuidesPath := "guides"

  const NoGuidesMessage := "No markdown files found under " + GuidesPath + "/."

  /** The filter on the tree: a blob under `guides/` whose name ends in `.md` or `.mdx`. */
  predicate IsGuideEntry(e: TreeEntry) {
    e.kind == "blob" && StartsWith(e.path, GuidesPath + "/") && IsMarkdown(e.path)
  }

  /** `tree.filter(...)`: the guide entries, in tree order. */
  function GuideEntries(tree: seq<TreeEntry>): (r: seq<TreeEntry>)
    ensures forall e :: e in r ==> e in tree && IsGuideEntry(e)
    ensures forall e :: e in tree && IsGuideEntry(e) ==> e in r
  {
    if tree == [] then []
    else (if IsGuideEntry(tree[0]) then [tree[0]] else []) + GuideEntries(tree[1..])
  }

  /** The filter on one entry keeps it exactly when it is a guide. */
  lemma GuideEntriesSingle(e: TreeEntry)
    ensures GuideEntries([e]) == if IsGuideEntry(e) then [e] else []
  {
    assert [e][1..] == [];
  }

  /**
   * The filter works entry by entry: filtering two listings one after the
   * other gives the two filtered listings one after the other, so the guides
   * keep the tree's order and its repetitions.
   */
  lemma {:induction false} GuideEntriesConcat(a: seq<TreeEntry>, b: seq<TreeEntry>)
    ensures GuideEntries(a + b) == GuideEntries(a) + GuideEntries(b)
  {
    if a == [] {
      assert a + b == b;
    } else {
      assert (a + b)[0] == a[0];
      assert (a + b)[1..] == a[1..] + b;
      GuideEntriesConcat(a[1..], b);
    }
  }

  /** The record the download mapper returns for one guide, stated with the specification functions. */
  function RecordOf(path: string, content: string): FileRecord {
    var split := SplitFrontmatter(content);
    FileRecord(path, content, split.body, ResolveOrder(FrontmatterData(split.frontmatter), path))
  }

  /** The mapper passed to `mapWithConcurrency`, once the text has been downloaded. */
  method LoadRecord(path: string, content: string) returns (f: FileRecord)
    ensures f == RecordOf(path, content)
  {
    var split := SplitFrontmatter(content);
    var frontmatterData := ParseFrontmatter(split.frontmatter);
    var orderValue := ExtractOrder(frontmatterData);
    if orderValue.None? {
      orderValue := NumericPrefix(path);
    }
    f := FileRecord(path, content, split.body, orderValue);
  }

  /** The records of the guides in tree order, each read with `fetch`. */
  function Records(entries: seq<TreeEntry>, fetch: string -> string): (r: seq<FileRecord>)
    ensures |r| == |entries|
  {
    seq(|entries|, i requires 0 <= i < |entries| => RecordOf(entries[i].path, fetch(entries[i].path)))
  }

  /** The document the program writes for a tree, or the error it throws. */
  function GuideDocument(tree: seq<TreeEntry>, fetch: string -> string, collator: Collator): Result<string> {
    var entries := GuideEntries(tree);
    if entries == [] then Failure(NoGuidesMessage)
    else Success(Document(Defaults, StableSort(Records(entries, fetch), collator)))
  }

  /**
   * From the tree to the document: filter, load every guide into its slot
   * (`results[i] = mapper(items[i])`), sort in place, assemble.
   */
  method BuildGuide(tree: seq<TreeEntry>, fetch: string -> string, collator: Collator) returns (r: Result<string>)
    ensures r == GuideDocument(tree, fetch, collator)
  {
    var entries := GuideEntries(tree);
    if |entries| == 0 {
      return Failure(NoGuidesMessage);
    }
    var files := new FileRecord[|entries|](i requires 0 <= i < |entries| => RecordOf(entries[i].path, ""));
    var i := 0;
    while i < |entries|
      invariant 0 <= i <= |entries|
      invariant forall j :: 0 <= j < i ==> files[j] == Records(entries, fetch)[j]
    {
      var content := fetch(entries[i].path);
      files[i] := LoadRecord(entries[i].path, content);
      i := i + 1;
    }
    assert files[..] == Records(entries, fetch);
    SortFiles(files, collator);
    return Success(Document(Defaults, files[..]));
  }

  /**
   * Every guide of the tree appears once in the document's order and nothing
   * else does; an empty selection is the error and nothing is written.
   */
  lemma GuideDocumentRecords(tree: seq<TreeEntry>, fetch: string -> string, collator: Collator)
    ensures GuideEntries(tree) == [] <==> GuideDocument(tree, fetch, collator).Failure?
    ensures GuideEntries(tree) != [] ==>
      var files := StableSort(Records(GuideEntries(tree), fetch), collator);
      && multiset(files) == multiset(Records(GuideEntries(tree), fetch))
      && GuideDocument(tree, fetch, collator) == Success(Document(Defaults, files))
  {
    SortPermutes(Records(GuideEntries(tree), fetch), collator);
  }
}
