/** src/data.rs: replacing the front matter of a document's text, and the path, tags and
    text of a new document created for a Jira ticket. Reading and writing files, and the
    YAML decoding of front matter, are not modelled. */
module Data {
  import opened Wrappers
  import opened Text
  import opened Sequences
  import opened Model

  // ---------------------------------------------------------------------------------------
  // `replace_frontmatter`

  /** The fenced front matter the function writes: `---`, the front matter, `---`. */
  function Header(fm: string): string {
    "---\n" + fm + "\n---\n"
  }

  predicate IsSuffix(a: string, b: string) {
    |a| <= |b| && b[|b| - |a|..] == a
  }

  /** `replace_frontmatter`: when the text opens with `---` and a second `---` follows, the
      text up to the end of that second fence is replaced by the new fenced front matter;
      otherwise the new front matter is put before the whole text. */
  function ReplaceFrontmatter(content: string, newFm: string): (r: string)
    ensures |r| >= |Header(newFm)| && r[..|Header(newFm)|] == Header(newFm)
    ensures IsSuffix(r[|Header(newFm)|..], content)
  {
    if StartsWith(content, "---") then
      match Find(content[3..], "---")
      case Some(end) => Header(newFm) + content[end + 6..]
      case None => Header(newFm) + content
    else
      Header(newFm) + content
  }

  /** The first occurrence found by `find` is the one no earlier occurrence precedes. */
  lemma FindFirst(s: string, pat: string, k: nat)
    requires OccursAt(s, pat, k)
    requires forall j: nat :: j < k ==> !OccursAt(s, pat, j)
    ensures Find(s, pat) == Some(k)
  {
    assert k <= |s|;
  }

  /** In `x + "---" + y` the first fence is the one after `x`, when `x` followed by two
      dashes holds no fence. */
  lemma FirstFence(x: string, y: string)
    requires !Contains(x + "--", "---")
    ensures Find(x + "---" + y, "---") == Some(|x|)
  {
    var s := x + "---" + y;
    assert s[|x|..|x| + 3] == "---";
    forall j: nat | j < |x|
      ensures !OccursAt(s, "---", j)
    {
      if OccursAt(s, "---", j) {
        assert s[j..j + 3] == (x + "--")[j..j + 3];
        assert OccursAt(x + "--", "---", j);
        assert false;
      }
    }
    FindFirst(s, "---", |x|);
  }

  /** Front matter free of fences stays free of them between newlines. */
  lemma FenceFreeLine(fm: string)
    requires !Contains(fm, "---")
    ensures !Contains("\n" + fm + "\n--", "---")
  {
    var t := "\n" + fm + "\n--";
    forall j: nat | j <= |t|
      ensures !OccursAt(t, "---", j)
    {
      if j + 3 <= |t| {
        var w := t[j..j + 3];
        if j == 0 {
          assert w[0] == '\n';
        } else if j + 3 <= |fm| + 1 {
          assert w == fm[j - 1..j + 2];
          assert !OccursAt(fm, "---", j - 1);
        } else {
          assert w[|fm| + 1 - j] == '\n';
        }
      }
    }
  }

  /** A text fenced as `---<old>---<body>` gets the new front matter and keeps `body`, the
      text after the closing fence. */
  lemma ReplaceFenced(oldFm: string, body: string, newFm: string)
    requires !Contains(oldFm + "--", "---")
    ensures ReplaceFrontmatter("---" + oldFm + "---" + body, newFm) == Header(newFm) + body
  {
    var content := "---" + oldFm + "---" + body;
    assert content[..3] == "---";
    assert content[3..] == oldFm + "---" + body;
    FirstFence(oldFm, body);
    assert content[|oldFm| + 6..] == body;
  }

  /** Without an opening fence, or without a closing one, the whole text is kept after the
      new front matter. */
  lemma ReplaceUnfenced(content: string, newFm: string)
    requires !(StartsWith(content, "---") && Contains(content[3..], "---"))
    ensures ReplaceFrontmatter(content, newFm) == Header(newFm) + content
  {
  }

  /** On a document written as `Header(fm) + body`, the closing fence's newline is kept, so
      every replacement puts one more blank line before the body. */
  lemma ReplaceAddsBlankLine(fm: string, body: string, newFm: string)
    requires !Contains(fm, "---")
    ensures ReplaceFrontmatter(Header(fm) + body, newFm) == Header(newFm) + "\n" + body
  {
    FenceFreeLine(fm);
    assert Header(fm) + body == "---" + ("\n" + fm + "\n") + "---" + ("\n" + body);
    assert ("\n" + fm + "\n") + "--" == "\n" + fm + "\n--";
    ReplaceFenced("\n" + fm + "\n", "\n" + body, newFm);
  }

  /** Hence replacing the front matter twice with the same text is not the same as doing it
      once: the result grows by one character each time. */
  lemma ReplaceTwiceGrows(content: string, fm: string)
    requires !Contains(fm, "---")
    ensures |ReplaceFrontmatter(ReplaceFrontmatter(content, fm), fm)| == |ReplaceFrontmatter(content, fm)| + 1
  {
    var once := ReplaceFrontmatter(content, fm);
    var rest := once[|Header(fm)|..];
    assert once == Header(fm) + rest;
    ReplaceAddsBlankLine(fm, rest, fm);
  }

  /** `replace_frontmatter` as evidently intended: the newline that ends the closing fence
      goes with the fence. */
  function ReplaceFrontmatterFixed(content: string, newFm: string): (r: string)
    ensures |r| >= |Header(newFm)| && r[..|Header(newFm)|] == Header(newFm)
    ensures IsSuffix(r[|Header(newFm)|..], content)
  {
    if StartsWith(content, "---") then
      match Find(content[3..], "---")
      case Some(end) =>
        var rest := content[end + 6..];
        Header(newFm) + (if rest != [] && rest[0] == '\n' then rest[1..] else rest)
      case None => Header(newFm) + content
    else
      Header(newFm) + content
  }

  /** The corrected replacement swaps the front matter of `Header(fm) + body` and keeps
      `body` exactly. */
  lemma FixedReplacesHeader(fm: string, body: string, newFm: string)
    requires !Contains(fm, "---")
    ensures ReplaceFrontmatterFixed(Header(fm) + body, newFm) == Header(newFm) + body
  {
    FenceFreeLine(fm);
    assert Header(fm) + body == "---" + ("\n" + fm + "\n") + "---" + ("\n" + body);
    assert ("\n" + fm + "\n") + "--" == "\n" + fm + "\n--";
    FixedFenced("\n" + fm + "\n", "\n" + body, newFm);
    assert ("\n" + body)[1..] == body;
  }

  /** A text fenced as `---<old>---<rest>` gets the new front matter, then `rest` without
      the newline it starts with, if any. */
  lemma FixedFenced(oldFm: string, rest: string, newFm: string)
    requires !Contains(oldFm + "--", "---")
    ensures ReplaceFrontmatterFixed("---" + oldFm + "---" + rest, newFm)
      == Header(newFm) + (if rest != [] && rest[0] == '\n' then rest[1..] else rest)
  {
    var content := "---" + oldFm + "---" + rest;
    assert content[..3] == "---";
    assert content[3..] == oldFm + "---" + rest;
    FirstFence(oldFm, rest);
    assert content[|oldFm| + 6..] == rest;
  }

  /** The corrected replacement is idempotent. */
  lemma FixedIdempotent(content: string, fm: string)
    requires !Contains(fm, "---")
    ensures ReplaceFrontmatterFixed(ReplaceFrontmatterFixed(content, fm), fm) == ReplaceFrontmatterFixed(content, fm)
  {
    var once := ReplaceFrontmatterFixed(content, fm);
    var rest := once[|Header(fm)|..];
    assert once == Header(fm) + rest;
    FixedReplacesHeader(fm, rest, fm);
  }

  // ---------------------------------------------------------------------------------------
  // `create_entry`

  /** The fields of a Jira ticket that a new entry uses. */
  datatype Ticket = Ticket(key: string, creator: string, summary: string, description: Option<string>)

  /** The file `create_entry` creates: its path and its text. */
  datatype NewEntry = NewEntry(path: string, text: string)

  /** `key_parts[0]`: the project, the part of the key before its first `-`. */
  function Project(key: string): (p: string)
    ensures '-' !in p && |p| <= |key| && key[..|p|] == p
    ensures |p| < |key| ==> key[|p|] == '-'
    ensures '-' !in key ==> p == key
  {
    FirstPiece(key, '-');
    Split(key, '-')[0]
  }

  /** A name between single quotes, as the tags are written. */
  function Quote(name: string): string {
    "'" + name + "'"
  }

  function QuoteOf(): string -> string {
    (name: string) => Quote(name)
  }

  /** The tags of a new entry: the project, the key, and the base path when there is one. */
  function TagNames(key: string, base: Option<string>): (tags: seq<string>)
    ensures |tags| == if base.Some? then 3 else 2
  {
    [Project(key), key] + (if base.Some? then [base.value] else [])
  }

  /** The front matter of a new entry, around the tags written as in the source. */
  function FrontMatter(author: string, tags: string): string {
    "author: '" + author + "'\ndate: ''\ntags: [" + tags + "]\nestimate: \nworklog:"
  }

  /** The text after the front matter: the summary as a heading, then the description. */
  function Body(ticket: Ticket): string {
    "# " + ticket.summary + "\n\n" + Description(ticket) + "\n"
  }

  /** `description.unwrap_or("")`. */
  function Description(ticket: Ticket): string {
    if ticket.description.Some? then ticket.description.value else ""
  }

  /** The metadata the new entry's front matter stands for: no worklog entry yet. */
  function EntryMetadata(ticket: Ticket, base: Option<string>): Metadata {
    Metadata(Some(ticket.creator), Some(""), TagNames(ticket.key, base), None, [])
  }

  /** A scalar of the front matter: quoted when there is a value, nothing after the key
      when there is none. */
  function Scalar(v: Option<string>): string {
    if v.Some? then Quote(v.value) else ""
  }

  /** The items of the `worklog` key, one `- '<entry>'` line each: nothing after the key when
      the worklog is empty, and a closing quote last otherwise. */
  function WorklogItems(worklog: seq<string>): (s: string)
    ensures worklog == [] <==> s == ""
    ensures worklog != [] ==> s[|s| - 1] == '\''
  {
    if worklog == [] then "" else "\n- " + Quote(worklog[0]) + WorklogItems(worklog[1..])
  }

  /** The front matter that stands for metadata `m`, laid out as `create_entry` lays it out. */
  function FrontMatterOf(m: Metadata): string {
    "author: " + Scalar(m.author) + "\ndate: " + Scalar(m.date) + "\ntags: [" + Join(Map(m.tags, QuoteOf()), ", ")
      + "]\nestimate: " + Scalar(m.estimate) + "\nworklog:" + WorklogItems(m.worklog)
  }

  /** The front matter `create_entry` writes is the one of the new entry's metadata. */
  lemma FrontMatterOfEntry(ticket: Ticket, base: Option<string>)
    ensures FrontMatter(ticket.creator, Join(Map(TagNames(ticket.key, base), QuoteOf()), ", "))
      == FrontMatterOf(EntryMetadata(ticket, base))
  {
    var m := EntryMetadata(ticket, base);
    var tags := Join(Map(m.tags, QuoteOf()), ", ");
    assert Scalar(m.author) == "'" + ticket.creator + "'";
    assert Scalar(m.date) == "''";
    assert Scalar(m.estimate) == "" && WorklogItems(m.worklog) == "";
    FrontMatterPieces(ticket.creator, tags);
  }

  /** The front matter text, regrouped into the pieces `FrontMatterOf` puts together. */
  lemma FrontMatterPieces(a: string, tags: string)
    ensures FrontMatter(a, tags)
      == "author: " + ("'" + a + "'") + "\ndate: " + "''" + "\ntags: [" + tags + "]\nestimate: " + "" + "\nworklog:" + ""
  {
    var head, mid, tail := "author: '", "'\ndate: ''\ntags: [", "]\nestimate: \nworklog:";
    assert head == "author: " + "'";
    assert mid == "'" + "\ndate: " + "''" + "\ntags: [";
    assert tail == "]\nestimate: " + "" + "\nworklog:" + "";
    calc {
      FrontMatter(a, tags);
      head + a + mid + tags + tail;
      "author: " + ("'" + a + "'") + "\ndate: " + "''" + "\ntags: [" + tags + "]\nestimate: " + "" + "\nworklog:" + "";
    }
  }

  /** The directory of a new entry under the root: the project, inside the base path when
      there is one. */
  function EntryDir(key: string, base: Option<string>): string {
    if base.Some? then base.value + "/" + Project(key) else Project(key)
  }

  /** `create_entry` without the write: the path of the new file and its text. */
  method CreateEntry(ticket: Ticket, base: Option<string>, root: string) returns (entry: NewEntry)
    ensures entry.path == root + "/" + EntryDir(ticket.key, base) + "/" + ticket.key + ".md"
    ensures entry.text == Header(FrontMatter(ticket.creator, Join(Map(TagNames(ticket.key, base), QuoteOf()), ", "))) + Body(ticket)
    ensures entry.text == Header(FrontMatterOf(EntryMetadata(ticket, base))) + Body(ticket)
  {
    var keyParts := Split(ticket.key, '-');
    var tags := Quote(keyParts[0]) + ", " + Quote(ticket.key);
    var dir := keyParts[0];
    if base.Some? {
      tags := tags + ", " + Quote(base.value);
      dir := base.value + "/" + keyParts[0];
    }
    var path := root + "/" + dir + "/" + ticket.key + ".md";
    var fileData := Header(FrontMatter(ticket.creator, tags)) + Body(ticket);
    TagsText(ticket.key, base);
    assert tags == Join(Map(TagNames(ticket.key, base), QuoteOf()), ", ");
    assert dir == EntryDir(ticket.key, base);
    FrontMatterOfEntry(ticket, base);
    entry := NewEntry(path, fileData);
  }

  /** The tags text is the YAML list of the quoted tag names, separated by `, `. */
  lemma TagsText(key: string, base: Option<string>)
    ensures var p := Split(key, '-')[0];
      Join(Map(TagNames(key, base), QuoteOf()), ", ")
        == Quote(p) + ", " + Quote(key) + (if base.Some? then ", " + Quote(base.value) else "")
  {
    var p := Split(key, '-')[0];
    var quoted := Map(TagNames(key, base), QuoteOf());
    var last := Join([Quote(key)], ", ");
    assert last == Quote(key);
    if base.None? {
      assert quoted == [Quote(p)] + [Quote(key)];
      JoinCons(Quote(p), [Quote(key)], ", ");
    } else {
      var b := Quote(base.value);
      assert quoted == [Quote(p)] + ([Quote(key)] + [b]);
      JoinCons(Quote(key), [b], ", ");
      assert Join([b], ", ") == b;
      JoinCons(Quote(p), [Quote(key)] + [b], ", ");
      assert Join(quoted, ", ") == Quote(p) + ", " + (Quote(key) + ", " + b);
    }
  }

  /** Metadata whose front matter is the one `create_entry` writes has an empty worklog,
      since that front matter ends with a bare `worklog:` key: a new entry is not active and
      has no range. */
  lemma NewEntryInactive(ticket: Ticket, base: Option<string>, m: Metadata, path: string)
    requires FrontMatterOf(m) == FrontMatter(ticket.creator, Join(Map(TagNames(ticket.key, base), QuoteOf()), ", "))
    ensures m.worklog == []
    ensures !DiaryDoc(m, path).IsActive() && DiaryDoc(m, path).WorklogRange() == []
  {
    var fm := FrontMatterOf(m);
    assert fm[|fm| - 1] == ':';
  }
}
