/**
 * `collectChangelog` of the release script (scripts/version-and-commit.mjs:135-187):
 * the fragments in `changelog.d` are filtered by name, sorted, trimmed, and joined
 * into one entry, which is inserted into CHANGELOG.md before the first release
 * heading `## [`.
 *
 * The file system is passed in: whether `changelog.d` exists and what it lists
 * (`listing`), what each file holds (`read`, keyed by path), and the contents of
 * CHANGELOG.md if it exists. The date is the ISO timestamp the script would take
 * from the clock.
 */
module Changelog {
  import opened Wrappers
  import opened Text
  import opened Filtering

  const ChangelogDir: string := "changelog.d"
  const HeadingPrefix: string := "## ["

  // ---------------------------------------------------------------------------
  // choosing and ordering the fragments (lines 143-152)
  // ---------------------------------------------------------------------------

  /** A file name taken as a fragment: it ends in `.md` and is not `README.md`. */
  predicate IsFragmentName(name: string) {
    EndsWith(name, ".md") && name != "README.md"
  }

  /** The fragment names of a listing, in listing order, each as often as listed. */
  function FragmentNames(listing: seq<string>): (r: seq<string>)
    ensures forall k :: 0 <= k < |r| ==> IsFragmentName(r[k])
    ensures forall n :: multiset(r)[n] == if IsFragmentName(n) then multiset(listing)[n] else 0
  {
    if |listing| == 0 then []
    else
      assert listing == [listing[0]] + listing[1..];
      if IsFragmentName(listing[0]) then [listing[0]] + FragmentNames(listing[1..])
      else FragmentNames(listing[1..])
  }

  /** Ascending in the default order of `Array.prototype.sort`. */
  predicate SortedByName(xs: seq<string>) {
    forall i, j :: 0 <= i < j < |xs| ==> LexLessEq(xs[i], xs[j])
  }

  /** `x` placed into the sorted `xs`. */
  function InsertByName(x: string, xs: seq<string>): (r: seq<string>)
    requires SortedByName(xs)
    ensures SortedByName(r)
    ensures multiset(r) == multiset(xs) + multiset{x}
  {
    if |xs| == 0 then [x]
    else if LexLessEq(x, xs[0]) then
      BelowHeadBelowAll(x, xs);
      SortedCons(x, xs);
      [x] + xs
    else
      LexTotal(x, xs[0]);
      assert xs == [xs[0]] + xs[1..];
      var rest := InsertByName(x, xs[1..]);
      HeadBelowInsert(xs[0], x, xs[1..], rest);
      SortedCons(xs[0], rest);
      [xs[0]] + rest
  }

  /** `files.sort()`: the names in ascending order, a permutation of the input. */
  function SortByName(xs: seq<string>): (r: seq<string>)
    ensures SortedByName(r)
    ensures multiset(r) == multiset(xs)
  {
    if |xs| == 0 then []
    else
      assert xs == [xs[0]] + xs[1..];
      InsertByName(xs[0], SortByName(xs[1..]))
  }

  lemma SortedCons(x: string, xs: seq<string>)
    requires SortedByName(xs)
    requires forall e | e in xs :: LexLessEq(x, e)
    ensures SortedByName([x] + xs)
  {
    var r := [x] + xs;
    forall i, j | 0 <= i < j < |r| ensures LexLessEq(r[i], r[j]) {
      assert r[j] == xs[j - 1];
      if i > 0 {
        assert r[i] == xs[i - 1];
      }
    }
  }

  lemma BelowHeadBelowAll(x: string, xs: seq<string>)
    requires SortedByName(xs) && |xs| > 0 && LexLessEq(x, xs[0])
    ensures forall e | e in xs :: LexLessEq(x, e)
  {
    forall e | e in xs ensures LexLessEq(x, e) {
      var j :| 0 <= j < |xs| && xs[j] == e;
      if j > 0 {
        LexTransitive(x, xs[0], e);
      }
    }
  }

  lemma HeadBelowInsert(h: string, x: string, tail: seq<string>, rest: seq<string>)
    requires SortedByName([h] + tail) && LexLessEq(h, x)
    requires multiset(rest) == multiset(tail) + multiset{x}
    ensures forall e | e in rest :: LexLessEq(h, e)
  {
    forall e | e in rest ensures LexLessEq(h, e) {
      assert e in multiset(rest);
      if e != x {
        assert e in multiset(tail);
        var j :| 0 <= j < |tail| && tail[j] == e;
        assert ([h] + tail)[0] == h && ([h] + tail)[j + 1] == e;
        assert LexLessEq(([h] + tail)[0], ([h] + tail)[j + 1]);
      }
    }
  }

  /**
   * Sorting is determined by the contents alone: two ascending arrangements of the
   * same names are the same sequence.
   */
  lemma {:induction false} SortedUnique(a: seq<string>, b: seq<string>)
    requires SortedByName(a) && SortedByName(b) && multiset(a) == multiset(b)
    ensures a == b
  {
    if |a| > 0 {
      assert |b| == |a| by {
        assert |multiset(a)| == |multiset(b)|;
      }
      assert a[0] in multiset(b) && b[0] in multiset(a);
      SortedHeadIsLeast(b, a[0]);
      SortedHeadIsLeast(a, b[0]);
      LexAntisymmetric(a[0], b[0]);
      SameHeadSameTail(a, b);
      SortedTail(a);
      SortedTail(b);
      SortedUnique(a[1..], b[1..]);
      assert a == [a[0]] + a[1..] && b == [b[0]] + b[1..];
    }
  }

  lemma SortedHeadIsLeast(a: seq<string>, x: string)
    requires SortedByName(a) && x in multiset(a)
    ensures |a| > 0 && LexLessEq(a[0], x)
  {
    var j :| 0 <= j < |a| && a[j] == x;
    if j == 0 {
      LexReflexive(x);
    }
  }

  lemma SameHeadSameTail(a: seq<string>, b: seq<string>)
    requires |a| > 0 && |b| > 0 && a[0] == b[0] && multiset(a) == multiset(b)
    ensures multiset(a[1..]) == multiset(b[1..])
  {
    assert a == [a[0]] + a[1..] && b == [b[0]] + b[1..];
    assert multiset(a) == multiset{a[0]} + multiset(a[1..]);
    assert multiset(b) == multiset{b[0]} + multiset(b[1..]);
    assert multiset(a[1..]) == multiset(a) - multiset{a[0]};
    assert multiset(b[1..]) == multiset(b) - multiset{b[0]};
  }

  lemma SortedTail(a: seq<string>)
    requires SortedByName(a) && |a| > 0
    ensures SortedByName(a[1..])
  {
    forall i, j | 0 <= i < j < |a| - 1 ensures LexLessEq(a[1..][i], a[1..][j]) {
      assert a[1..][i] == a[i + 1] && a[1..][j] == a[j + 1];
    }
  }

  /** The fragments in the order they are read: the fragment names of the listing, sorted. */
  function FragmentOrder(listing: seq<string>): (r: seq<string>)
    ensures SortedByName(r)
    ensures forall n :: n in r <==> n in listing && IsFragmentName(n)
  {
    var r := SortByName(FragmentNames(listing));
    assert forall n :: n in r <==> n in multiset(r);
    r
  }

  /** The order the directory lists its files in does not matter. */
  lemma FragmentOrderIgnoresListingOrder(listing1: seq<string>, listing2: seq<string>)
    requires multiset(listing1) == multiset(listing2)
    ensures FragmentOrder(listing1) == FragmentOrder(listing2)
  {
    var a, b := FragmentNames(listing1), FragmentNames(listing2);
    assert multiset(a) == multiset(b);
    SortedUnique(SortByName(a), SortByName(b));
  }

  // ---------------------------------------------------------------------------
  // the aggregated text (lines 153-155)
  // ---------------------------------------------------------------------------

  /** `join(changelogDir, f)`. */
  function FragmentPath(name: string): string {
    ChangelogDir + "/" + name
  }

  /** A fragment whose text is nothing but white space, dropped by `.filter(Boolean)` once trimmed. */
  predicate Blank(name: string, read: string -> string) {
    Trim(read(FragmentPath(name))) == ""
  }

  /** Every fragment in `names` is blank. */
  predicate AllBlank(names: seq<string>, read: string -> string) {
    |names| == 0 || (Blank(names[0], read) && AllBlank(names[1..], read))
  }

  lemma {:induction false} AllBlankEach(names: seq<string>, read: string -> string)
    ensures AllBlank(names, read) <==> forall k :: 0 <= k < |names| ==> Blank(names[k], read)
  {
    if |names| > 0 {
      AllBlankEach(names[1..], read);
      assert forall k :: 1 <= k < |names| ==> names[1..][k - 1] == names[k];
    }
  }

  /** `.map(f => readFileSync(...).trim()).filter(Boolean)`: the non-blank fragments, trimmed, in order. */
  function FragmentTexts(names: seq<string>, read: string -> string): (r: seq<string>)
    ensures |r| <= |names|
    ensures forall k :: 0 <= k < |r| ==> r[k] != ""
    ensures r == [] <==> AllBlank(names, read)
  {
    if |names| == 0 then []
    else
      var rest := FragmentTexts(names[1..], read);
      if Blank(names[0], read) then rest else [Trim(read(FragmentPath(names[0])))] + rest
  }

  /** `.join('\n\n')` of the fragment texts; empty exactly when every fragment is blank. */
  function Fragments(names: seq<string>, read: string -> string): (r: string)
    ensures r == "" <==> forall k :: 0 <= k < |names| ==> Blank(names[k], read)
  {
    var texts := FragmentTexts(names, read);
    JoinEmptyIff(texts, "\n\n");
    AllBlankEach(names, read);
    Join(texts, "\n\n")
  }

  /**
   * The texts of a concatenation are the texts of each part, in order. Together with
   * `FragmentTextsOne` this pins `FragmentTexts` down completely: the texts of any list are
   * the trimmed contents of its non-blank fragments, one per fragment, in listing order.
   */
  lemma {:induction false} FragmentTextsAppend(a: seq<string>, b: seq<string>, read: string -> string)
    ensures FragmentTexts(a + b, read) == FragmentTexts(a, read) + FragmentTexts(b, read)
  {
    if |a| == 0 {
      assert a + b == b;
    } else {
      assert (a + b)[0] == a[0];
      assert (a + b)[1..] == a[1..] + b;
      FragmentTextsAppend(a[1..], b, read);
    }
  }

  /** One fragment contributes its trimmed text, or nothing when it is blank. */
  lemma FragmentTextsOne(name: string, read: string -> string)
    ensures FragmentTexts([name], read) == if Blank(name, read) then [] else [Trim(read(FragmentPath(name)))]
  {
    assert [name][1..] == [];
  }

  /** `texts` are the trimmed texts of the fragments of `names` that are not blank, one each, in order. */
  ghost predicate IndexedTexts(names: seq<string>, read: string -> string, js: seq<int>, texts: seq<string>) {
    KeptInOrder(names, name => !Blank(name, read), name => Trim(read(FragmentPath(name))), js, texts)
  }

  /**
   * The aggregated text joins, with one blank line between them, the trimmed texts of
   * exactly the fragments that are not blank, one each, in order.
   */
  lemma {:induction false} FragmentsInOrder(names: seq<string>, read: string -> string)
    ensures exists js :: IndexedTexts(names, read, js, FragmentTexts(names, read))
    ensures Fragments(names, read) == Join(FragmentTexts(names, read), "\n\n")
  {
    if |names| == 0 {
      assert IndexedTexts(names, read, [], FragmentTexts(names, read));
    } else {
      var n := |names| - 1;
      assert names[..n] + [names[n]] == names;
      FragmentsInOrder(names[..n], read);
      var ts := FragmentTexts(names[..n], read);
      var js :| IndexedTexts(names[..n], read, js, ts);
      var keep, text := name => !Blank(name, read), name => Trim(read(FragmentPath(name)));
      var js' := KeptInOrderStep(names, keep, text, js, ts);
      FragmentTextsAppend(names[..n], [names[n]], read);
      FragmentTextsOne(names[n], read);
      assert ts + (if keep(names[n]) then [text(names[n])] else []) == FragmentTexts(names, read);
      assert IndexedTexts(names, read, js', FragmentTexts(names, read));
    }
  }

  /**
   * The fragments of a concatenation: those of each part, one blank line between them
   * when both are non-empty.
   */
  lemma FragmentsAppend(a: seq<string>, b: seq<string>, read: string -> string)
    ensures Fragments(a + b, read) ==
              if Fragments(a, read) == "" then Fragments(b, read)
              else if Fragments(b, read) == "" then Fragments(a, read)
              else Fragments(a, read) + "\n\n" + Fragments(b, read)
  {
    var ta, tb := FragmentTexts(a, read), FragmentTexts(b, read);
    FragmentTextsAppend(a, b, read);
    JoinEmptyIff(ta, "\n\n");
    JoinEmptyIff(tb, "\n\n");
    if ta == [] {
      assert ta + tb == tb;
    } else if tb == [] {
      assert ta + tb == ta;
    } else {
      JoinAppend(ta, tb, "\n\n");
    }
  }

  /** A single non-blank fragment is taken as it is, with the surrounding white space trimmed. */
  lemma OneFragment(name: string, read: string -> string)
    requires Trim(read(FragmentPath(name))) != ""
    ensures Fragments([name], read) == Trim(read(FragmentPath(name)))
  {
    assert FragmentTexts([name][1..], read) == [];
  }

  /** Two non-blank fragments are separated by one blank line. */
  lemma TwoFragments(a: string, b: string, read: string -> string)
    requires Trim(read(FragmentPath(a))) != "" && Trim(read(FragmentPath(b))) != ""
    ensures Fragments([a, b], read) == Trim(read(FragmentPath(a))) + "\n\n" + Trim(read(FragmentPath(b)))
  {
    var ta, tb := Trim(read(FragmentPath(a))), Trim(read(FragmentPath(b)));
    OneFragment(b, read);
    assert [a, b][1..] == [b];
    assert FragmentTexts([b], read) == [tb];
    var texts := FragmentTexts([a, b], read);
    assert texts == [ta] + [tb];
    assert texts[1..] == [tb];
    assert Join(texts, "\n\n") == ta + "\n\n" + Join([tb], "\n\n");
  }

  // ---------------------------------------------------------------------------
  // the new entry (lines 161-162)
  // ---------------------------------------------------------------------------

  /** `new Date().toISOString().split('T')[0]`: the date part, everything before the first `T`. */
  function DateOf(isoTimestamp: string): (d: string)
    ensures 'T' !in d && StartsWith(isoTimestamp, d)
    ensures |d| == |isoTimestamp| || isoTimestamp[|d|] == 'T'
  {
    SplitFirstPiece(isoTimestamp, 'T');
    Split(isoTimestamp, 'T')[0]
  }

  /** The entry text for one release. */
  function NewEntry(version: string, date: string, fragments: string): string {
    "\n" + HeadingPrefix + version + "] - " + date + "\n\n" + fragments + "\n"
  }

  /**
   * Line by line the entry is a blank line, the release heading, a blank line, the
   * lines of the fragments, and the empty text after the final line break.
   */
  lemma {:induction false} EntryLines(version: string, date: string, fragments: string)
    requires '\n' !in version && '\n' !in date
    ensures Split(NewEntry(version, date, fragments), '\n')
            == ["", HeadingPrefix + version + "] - " + date, ""] + Split(fragments, '\n') + [""]
  {
    var heading := HeadingPrefix + version + "] - " + date;
    HeadingHasNoNewline(version, date);
    var e := NewEntry(version, date, fragments);
    var tail3 := fragments + "\n" + "";
    var tail2 := "" + "\n" + tail3;
    var tail1 := heading + "\n" + tail2;
    assert e == "" + "\n" + tail1;
    var pieces := Split(fragments, '\n');
    assert Split(tail3, '\n') == pieces + [""] by {
      SplitAround(fragments, "", '\n');
    }
    assert Split(tail2, '\n') == [""] + (pieces + [""]) by {
      SplitAround("", tail3, '\n');
    }
    assert Split(tail1, '\n') == [heading] + ([""] + (pieces + [""])) by {
      SplitAround(heading, tail2, '\n');
      SplitWithoutSeparator(heading, '\n');
    }
    assert Split(e, '\n') == [""] + ([heading] + ([""] + (pieces + [""]))) by {
      SplitAround("", tail1, '\n');
    }
    assert [""] + ([heading] + ([""] + (pieces + [""]))) == ["", heading, ""] + pieces + [""];
  }

  /** The heading line holds no line feed when the version and the date hold none. */
  lemma HeadingHasNoNewline(version: string, date: string)
    requires '\n' !in version && '\n' !in date
    ensures '\n' !in HeadingPrefix + version + "] - " + date
  {
    var heading := HeadingPrefix + version + "] - " + date;
    forall k | 0 <= k < |heading| ensures heading[k] != '\n' {
      if k >= |HeadingPrefix + version + "] - "| {
        assert heading[k] == date[k - |HeadingPrefix + version + "] - "|];
      } else if k >= |HeadingPrefix| {
        if k < |HeadingPrefix + version| {
          assert heading[k] == version[k - |HeadingPrefix|];
        }
      }
    }
  }

  // ---------------------------------------------------------------------------
  // inserting the entry (lines 164-184)
  // ---------------------------------------------------------------------------

  /** A release heading line. */
  predicate IsHeading(line: string) {
    StartsWith(line, HeadingPrefix)
  }

  /** Index of the first release heading among the lines. */
  function FirstHeading(lines: seq<string>): (r: Option<nat>)
    ensures r.Some? ==> r.value < |lines| && IsHeading(lines[r.value])
    ensures forall k :: 0 <= k < |lines| && (r.None? || k < r.value) ==> !IsHeading(lines[k])
  {
    if |lines| == 0 then None
    else if IsHeading(lines[0]) then Some(0)
    else
      assert forall k :: 1 <= k < |lines| ==> lines[1..][k - 1] == lines[k];
      match FirstHeading(lines[1..])
      case None => None
      case Some(i) => Some(i + 1)
  }

  /** CHANGELOG.md with the entry spliced in before the first heading, or appended when there is none. */
  function WithEntry(content: string, entry: string): string {
    var lines := Split(content, '\n');
    match FirstHeading(lines)
    case Some(i) => Join(lines[..i] + [entry] + lines[i..], "\n")
    case None => content + entry
  }

  /** The scan for the first heading and the splice, as the script performs them. */
  method InsertEntry(content: string, entry: string) returns (updated: string)
    ensures updated == WithEntry(content, entry)
  {
    var lines := Split(content, '\n');
    var insertIndex := -1;
    var i := 0;
    while i < |lines|
      invariant 0 <= i <= |lines|
      invariant insertIndex == -1
      invariant forall k :: 0 <= k < i ==> !IsHeading(lines[k])
    {
      if IsHeading(lines[i]) {
        insertIndex := i;
        break;
      }
      i := i + 1;
    }
    if insertIndex >= 0 {
      lines := lines[..insertIndex] + [entry] + lines[insertIndex..];
      updated := Join(lines, "\n");
    } else {
      updated := content + entry;
    }
  }

  /**
   * With a release heading present, every original line is kept in order and the lines
   * of the entry come right before the first heading.
   */
  lemma EntryBeforeFirstHeading(content: string, entry: string)
    requires FirstHeading(Split(content, '\n')).Some?
    ensures var lines := Split(content, '\n');
            var i := FirstHeading(lines).value;
            Split(WithEntry(content, entry), '\n') == lines[..i] + Split(entry, '\n') + lines[i..]
  {
    var lines := Split(content, '\n');
    var i := FirstHeading(lines).value;
    SplitOfSplice(lines[..i], entry, lines[i..], '\n');
  }

  /** Splitting lines joined around one inserted text gives the lines around the pieces of that text. */
  lemma SplitOfSplice(pre: seq<string>, entry: string, post: seq<string>, sep: char)
    requires forall k :: 0 <= k < |pre| ==> sep !in pre[k]
    requires forall k :: 0 <= k < |post| ==> sep !in post[k]
    ensures Split(Join(pre + [entry] + post, [sep]), sep) == pre + Split(entry, sep) + post
  {
    var parts := pre + [entry] + post;
    SplitOfJoin(parts, sep);
    SplitEachAppend(pre + [entry], post, sep);
    SplitEachAppend(pre, [entry], sep);
    SplitEachOne(entry, sep);
    SplitEachFree(pre, sep);
    SplitEachFree(post, sep);
  }

  /**
   * Without a release heading the entry is appended: since it starts with a line break,
   * the original lines are followed by the entry's lines.
   */
  lemma EntryAppended(content: string, entry: string)
    requires FirstHeading(Split(content, '\n')).None?
    requires |entry| >= 1 && entry[0] == '\n'
    ensures Split(WithEntry(content, entry), '\n') == Split(content, '\n') + Split(entry[1..], '\n')
  {
    assert content + entry == content + ['\n'] + entry[1..];
    SplitAround(content, entry[1..], '\n');
  }

  /** The heading that was first stays in the updated file, now after the entry. */
  lemma HeadingFollowsEntry(content: string, version: string, date: string, fragments: string)
    requires '\n' !in version && '\n' !in date
    requires FirstHeading(Split(content, '\n')).Some?
    ensures var lines := Split(content, '\n');
            var i := FirstHeading(lines).value;
            var after := Split(WithEntry(content, NewEntry(version, date, fragments)), '\n');
            var n := i + 4 + |Split(fragments, '\n')|;
            n < |after| && after[n] == lines[i] && after[i + 1] == HeadingPrefix + version + "] - " + date
  {
    var lines := Split(content, '\n');
    var i := FirstHeading(lines).value;
    var heading := HeadingPrefix + version + "] - " + date;
    var entryLines := ["", heading, ""] + Split(fragments, '\n') + [""];
    var after := Split(WithEntry(content, NewEntry(version, date, fragments)), '\n');
    assert after == lines[..i] + entryLines + lines[i..] by {
      EntryBeforeFirstHeading(content, NewEntry(version, date, fragments));
      EntryLines(version, date, fragments);
    }
    SpliceAt(lines[..i], entryLines, lines[i..]);
    assert entryLines[1] == heading;
  }

  /** In `pre + mid + post`, `mid` starts at `|pre|` and `post` at `|pre| + |mid|`. */
  lemma SpliceAt(pre: seq<string>, mid: seq<string>, post: seq<string>)
    requires |mid| >= 2 && |post| >= 1
    ensures (pre + mid + post)[|pre| + 1] == mid[1]
    ensures |pre| + |mid| < |pre + mid + post| && (pre + mid + post)[|pre| + |mid|] == post[0]
  {
  }

  // ---------------------------------------------------------------------------
  // collectChangelog
  // ---------------------------------------------------------------------------

  /**
   * `written` is CHANGELOG.md as `collectChangelog(version)` leaves it: rewritten exactly when
   * the directory was listed, the file exists and some fragment is not blank, and then with
   * the entry for `version` holding the fragments in name order.
   */
  predicate WrittenAsCollected(version: string, isoTimestamp: string, listing: Option<seq<string>>,
                               read: string -> string, changelog: Option<string>, written: Option<string>) {
    && (written.Some? <==> listing.Some? && changelog.Some? && Fragments(FragmentOrder(listing.value), read) != "")
    && (written.Some? ==>
          written.value == WithEntry(changelog.value,
                                     NewEntry(version, DateOf(isoTimestamp), Fragments(FragmentOrder(listing.value), read))))
  }

  /**
   * `collectChangelog(version)`: the new CHANGELOG.md, when one is written, and the number
   * of fragment files reported, when the report is printed.
   */
  method CollectChangelog(version: string, isoTimestamp: string, listing: Option<seq<string>>,
                          read: string -> string, changelog: Option<string>)
    returns (written: Option<string>, reported: Option<nat>)
    ensures reported.Some? <==> listing.Some? && Fragments(FragmentOrder(listing.value), read) != ""
    ensures reported.Some? ==> reported.value == |FragmentNames(listing.value)|
    ensures written.Some? <==> reported.Some? && changelog.Some?
    ensures written.Some? ==>
              var names := FragmentOrder(listing.value);
              written.value == WithEntry(changelog.value, NewEntry(version, DateOf(isoTimestamp), Fragments(names, read)))
  {
    written, reported := None, None;
    if listing.None? {
      return;
    }
    var files := FragmentNames(listing.value);
    if |files| == 0 {
      return;
    }
    var fragments := Fragments(SortByName(files), read);
    if fragments == "" {
      return;
    }
    var entry := NewEntry(version, DateOf(isoTimestamp), fragments);
    if changelog.Some? {
      var content := InsertEntry(changelog.value, entry);
      written := Some(content);
    }
    reported := Some(|files|);
  }
}
