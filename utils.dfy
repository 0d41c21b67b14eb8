/**
 * Pure helpers of the downloader: the file-name sanitiser `be_good_name`, the
 * selection and numeric ordering of page images in a directory listing, and
 * the flattening of a bookmark tree into outline-item calls.
 */
module Utils {
  import opened Wrappers
  import opened Strings

  // ---------------------------------------------------------------------------
  // be_good_name
  // ---------------------------------------------------------------------------

  /** The nine characters `be_good_name` removes from a file name, in the order it visits them. */
  const Forbidden: string := "\\/:*?\"<>|"

  predicate IsForbidden(ch: char) { ch in Forbidden }

  /** No character of `cs` occurs in `s`. */
  predicate FreeOf(s: string, cs: string)
  {
    forall i :: 0 <= i < |s| ==> s[i] !in cs
  }

  /** A name holding none of the nine characters `be_good_name` removes. */
  predicate Clean(s: string) { FreeOf(s, Forbidden) }

  /** Python's `s.replace(c, rep)` for a one-character pattern. */
  function ReplaceAll(s: string, c: char, rep: string): string
  {
    if s == [] then [] else (if s[0] == c then rep else [s[0]]) + ReplaceAll(s[1..], c, rep)
  }

  /**
   * The sanitiser's loop: replace every `cs[0]`, then every `cs[1]`, and so
   * on. A name free of `cs` is left alone, whatever the replacement.
   */
  function ReplaceEach(s: string, cs: string, rep: string): (r: string)
    ensures FreeOf(s, cs) ==> r == s
    decreases cs
  {
    if cs == [] then s
    else
      var next := ReplaceAll(s, cs[0], rep);
      if FreeOf(s, cs) then ReplaceAllAbsent(s, cs[0], rep); ReplaceEach(next, cs[1..], rep)
      else ReplaceEach(next, cs[1..], rep)
  }

  /** Reference definition: one left-to-right pass that turns each character of `cs` into `rep`. */
  function Substitute(s: string, cs: string, rep: string): string
  {
    if s == [] then [] else (if s[0] in cs then rep else [s[0]]) + Substitute(s[1..], cs, rep)
  }

  /** `r` is a subsequence of `s`: `s` with some characters deleted and the others kept in order. */
  predicate IsSubsequence(r: string, s: string)
  {
    if r == [] then true
    else if s == [] then false
    else if r[0] == s[0] then IsSubsequence(r[1..], s[1..])
    else IsSubsequence(r, s[1..])
  }

  lemma {:induction false} ReplaceAllAbsent(s: string, c: char, rep: string)
    requires c !in s
    ensures ReplaceAll(s, c, rep) == s
  {
    if s != [] {
      ReplaceAllAbsent(s[1..], c, rep);
      assert [s[0]] + s[1..] == s;
    }
  }

  lemma {:induction false} SubstituteConcat(a: string, b: string, cs: string, rep: string)
    ensures Substitute(a + b, cs, rep) == Substitute(a, cs, rep) + Substitute(b, cs, rep)
  {
    if a != [] {
      SubstituteConcat(a[1..], b, cs, rep);
      assert (a + b)[1..] == a[1..] + b;
    } else {
      assert a + b == b;
    }
  }

  /** A string free of `cs` passes through the one-pass substitution unchanged. */
  lemma {:induction false} SubstituteFree(s: string, cs: string, rep: string)
    requires FreeOf(s, cs)
    ensures Substitute(s, cs, rep) == s
  {
    if s != [] {
      SubstituteFree(s[1..], cs, rep);
      assert [s[0]] + s[1..] == s;
    }
  }

  lemma {:induction false} SubstituteAfterReplace(s: string, c: char, rest: string, rep: string)
    requires FreeOf(rep, rest)
    ensures Substitute(ReplaceAll(s, c, rep), rest, rep) == Substitute(s, [c] + rest, rep)
  {
    if s != [] {
      var head := if s[0] == c then rep else [s[0]];
      SubstituteConcat(head, ReplaceAll(s[1..], c, rep), rest, rep);
      SubstituteAfterReplace(s[1..], c, rest, rep);
      if s[0] == c {
        SubstituteFree(rep, rest, rep);
      } else {
        assert Substitute(head, rest, rep) == (if s[0] in rest then rep else [s[0]]) + Substitute([], rest, rep);
      }
    }
  }

  /**
   * When the replacement holds none of the characters still to be visited,
   * the character-by-character loop equals the one-pass substitution.
   */
  lemma {:induction false} ReplaceEachIsSubstitute(s: string, cs: string, rep: string)
    requires FreeOf(rep, cs)
    ensures ReplaceEach(s, cs, rep) == Substitute(s, cs, rep)
    decreases cs
  {
    if cs == [] {
      SubstituteFree(s, cs, rep);
    } else {
      ReplaceEachIsSubstitute(ReplaceAll(s, cs[0], rep), cs[1..], rep);
      SubstituteAfterReplace(s, cs[0], cs[1..], rep);
      assert [cs[0]] + cs[1..] == cs;
    }
  }

  /** The substitution leaves no character of `cs` behind when `rep` has none. */
  lemma {:induction false} SubstituteIsFree(s: string, cs: string, rep: string)
    requires FreeOf(rep, cs)
    ensures FreeOf(Substitute(s, cs, rep), cs)
  {
    if s != [] {
      SubstituteIsFree(s[1..], cs, rep);
      var head := if s[0] in cs then rep else [s[0]];
      var r := head + Substitute(s[1..], cs, rep);
      forall i | 0 <= i < |r| ensures r[i] !in cs {
        if i >= |head| { assert r[i] == Substitute(s[1..], cs, rep)[i - |head|]; }
      }
    }
  }

  /**
   * With the default replacement "" the sanitiser deletes exactly the forbidden
   * characters: the result is clean, it is a subsequence of the input, and every
   * other character occurs as often as in the input.
   */
  lemma {:induction false} DeleteForbidden(s: string)
    ensures Clean(Substitute(s, Forbidden, ""))
    ensures IsSubsequence(Substitute(s, Forbidden, ""), s)
    ensures forall ch :: !IsForbidden(ch) ==> multiset(Substitute(s, Forbidden, ""))[ch] == multiset(s)[ch]
  {
    SubstituteIsFree(s, Forbidden, "");
    if s != [] {
      DeleteForbidden(s[1..]);
      var t := Substitute(s[1..], Forbidden, "");
      assert s == [s[0]] + s[1..];
      if s[0] in Forbidden {
        assert Substitute(s, Forbidden, "") == t;
        SubsequenceSkip(t, s);
      } else {
        assert Substitute(s, Forbidden, "") == [s[0]] + t;
        assert ([s[0]] + t)[1..] == t;
      }
    }
  }

  lemma {:induction false} SubsequenceSkip(r: string, s: string)
    requires s != [] && IsSubsequence(r, s[1..])
    ensures IsSubsequence(r, s)
  {
    if r != [] && r[0] == s[0] {
      SubsequenceDrop(r, s[1..]);
    }
  }

  lemma {:induction false} SubsequenceDrop(r: string, s: string)
    requires r != [] && IsSubsequence(r, s)
    ensures IsSubsequence(r[1..], s)
  {
    if s != [] {
      if r[0] == s[0] {
        if r[1..] != [] { SubsequenceSkip(r[1..], s); }
      } else {
        SubsequenceDrop(r, s[1..]);
        if r[1..] != [] { SubsequenceSkip(r[1..], s); }
      }
    }
  }

  /**
   * `be_good_name(name, be)`: visits the forbidden characters in order and
   * replaces every occurrence of each one by `be`.
   */
  method BeGoodName(name: string, be: string) returns (r: string)
    ensures r == ReplaceEach(name, Forbidden, be)
    ensures Clean(be) ==> r == Substitute(name, Forbidden, be) && Clean(r)
  {
    r := name;
    for i := 0 to |Forbidden|
      invariant ReplaceEach(r, Forbidden[i..], be) == ReplaceEach(name, Forbidden, be)
    {
      var c := Forbidden[i];
      assert Forbidden[i..][1..] == Forbidden[i + 1..];
      if c in r {
        r := ReplaceAll(r, c, be);
      } else {
        ReplaceAllAbsent(r, c, be);
      }
    }
    assert Forbidden[|Forbidden|..] == [];
    if Clean(be) {
      ReplaceEachIsSubstitute(name, Forbidden, be);
      SubstituteIsFree(name, Forbidden, be);
    }
  }

  /** Sanitising twice is sanitising once, for a replacement that is itself clean. */
  lemma SanitizeIdempotent(name: string, be: string)
    requires Clean(be)
    ensures ReplaceEach(ReplaceEach(name, Forbidden, be), Forbidden, be) == ReplaceEach(name, Forbidden, be)
  {
    ReplaceEachIsSubstitute(name, Forbidden, be);
    SubstituteIsFree(name, Forbidden, be);
  }

  // ---------------------------------------------------------------------------
  // get_imgs_files
  // ---------------------------------------------------------------------------

  /** Index of the last '.' in `s`, or -1 (Python's `s.rfind('.')`). */
  function LastDot(s: string): (r: int)
    ensures -1 <= r < |s|
    ensures r >= 0 ==> s[r] == '.' && '.' !in s[r + 1..]
    ensures r == -1 ==> '.' !in s
  {
    if s == [] then -1
    else if s[|s| - 1] == '.' then |s| - 1
    else
      var r := LastDot(s[..|s| - 1]);
      assert s == s[..|s| - 1] + [s[|s| - 1]];
      r
  }

  /** `PurePath.suffix`: from the last dot on, unless the dot leads or ends the name. */
  function Suffix(name: string): string
  {
    var i := LastDot(name);
    if 0 < i < |name| - 1 then name[i..] else ""
  }

  /** `PurePath.stem`: the name without its suffix. */
  function Stem(name: string): string
  {
    var i := LastDot(name);
    if 0 < i < |name| - 1 then name[..i] else name
  }

  /** The integer value of the stem, None where `int(x.stem)` raises. */
  function StemNumber(name: string): Option<int>
  {
    ParseInt(Stem(name))
  }

  /** The entries whose suffix is `want`, in listing order. */
  function Kept(names: seq<string>, want: string): seq<string>
  {
    if names == [] then []
    else Kept(names[..|names| - 1], want) + (if Suffix(names[|names| - 1]) == want then [names[|names| - 1]] else [])
  }

  lemma {:induction false} KeptMembers(names: seq<string>, want: string)
    ensures forall x :: x in Kept(names, want) <==> x in names && Suffix(x) == want
  {
    if names != [] {
      KeptMembers(names[..|names| - 1], want);
      assert names == names[..|names| - 1] + [names[|names| - 1]];
    }
  }

  /** The sort key `int(x.stem)`, where it exists. */
  function Key(name: string): int { StemNumber(name).GetOr(0) }

  /** `s` is in ascending order of `key`. */
  predicate SortedBy(s: seq<string>, key: string -> int)
  {
    forall i, j :: 0 <= i < j < |s| ==> key(s[i]) <= key(s[j])
  }

  /** Insert `x` after every element whose key is not greater (keeps equal keys in order). */
  function InsertBy(x: string, s: seq<string>, key: string -> int): seq<string>
  {
    if s == [] then [x]
    else if key(x) < key(s[|s| - 1]) then InsertBy(x, s[..|s| - 1], key) + [s[|s| - 1]]
    else s + [x]
  }

  /** Reference for Python's stable `sorted(result, key=...)`: insertion sort by `key`. */
  function SortBy(s: seq<string>, key: string -> int): seq<string>
  {
    if s == [] then [] else InsertBy(s[|s| - 1], SortBy(s[..|s| - 1], key), key)
  }

  lemma {:induction false} InsertBounded(x: string, s: seq<string>, key: string -> int, b: int)
    requires key(x) <= b
    requires forall k :: 0 <= k < |s| ==> key(s[k]) <= b
    ensures forall k :: 0 <= k < |InsertBy(x, s, key)| ==> key(InsertBy(x, s, key)[k]) <= b
  {
    if s != [] && key(x) < key(s[|s| - 1]) {
      InsertBounded(x, s[..|s| - 1], key, b);
    }
  }

  lemma {:induction false} InsertPermutes(x: string, s: seq<string>, key: string -> int)
    ensures multiset(InsertBy(x, s, key)) == multiset(s) + multiset{x}
  {
    if s != [] && key(x) < key(s[|s| - 1]) {
      InsertPermutes(x, s[..|s| - 1], key);
      assert s == s[..|s| - 1] + [s[|s| - 1]];
    }
  }

  lemma {:induction false} InsertSorted(x: string, s: seq<string>, key: string -> int)
    requires SortedBy(s, key)
    ensures SortedBy(InsertBy(x, s, key), key)
  {
    if s != [] {
      var last := s[|s| - 1];
      var init := s[..|s| - 1];
      if key(x) < key(last) {
        InsertSorted(x, init, key);
        InsertBounded(x, init, key, key(last));
      }
    }
  }

  /** The reference sort yields an ordered permutation of its input. */
  lemma SortByCorrect(s: seq<string>, key: string -> int)
    ensures SortedBy(SortBy(s, key), key)
    ensures multiset(SortBy(s, key)) == multiset(s)
  {
    SortBySorted(s, key);
    SortByPermutes(s, key);
  }

  lemma {:induction false} SortBySorted(s: seq<string>, key: string -> int)
    ensures SortedBy(SortBy(s, key), key)
  {
    if s != [] {
      var init, last := s[..|s| - 1], s[|s| - 1];
      SortBySorted(init, key);
      InsertSorted(last, SortBy(init, key), key);
    }
  }

  lemma {:induction false} SortByPermutes(s: seq<string>, key: string -> int)
    ensures multiset(SortBy(s, key)) == multiset(s)
  {
    if s != [] {
      var init, last := s[..|s| - 1], s[|s| - 1];
      SortByPermutes(init, key);
      InsertPermutes(last, SortBy(init, key), key);
      assert s == init + [last];
    }
  }

  /**
   * `get_imgs_files(dir, suffix)` over the names the directory lists: keeps the
   * names whose suffix is "." + suffix and sorts them by the integer value of
   * their stem. None stands for the ValueError raised when a kept stem is not
   * an integer.
   */
  method GetImgsFiles(names: seq<string>, suffix: string) returns (r: Option<seq<string>>)
    ensures r.None? <==> exists i :: 0 <= i < |names| && Suffix(names[i]) == "." + suffix && StemNumber(names[i]).None?
    ensures r.Some? ==> multiset(r.value) == multiset(Kept(names, "." + suffix))
    ensures r.Some? ==> forall x :: x in r.value <==> x in names && Suffix(x) == "." + suffix
    ensures r.Some? ==> SortedBy(r.value, Key)
  {
    var want := "." + suffix;
    var result: seq<string> := [];
    for i := 0 to |names|
      invariant result == Kept(names[..i], want)
    {
      assert names[..i + 1][..i] == names[..i];
      if Suffix(names[i]) == want {
        result := result + [names[i]];
      }
    }
    assert names[..|names|] == names;
    // `sorted` evaluates `int(x.stem)` for every kept name; the first failure raises.
    if exists m :: 0 <= m < |result| && StemNumber(result[m]).None? {
      var j :| 0 <= j < |result| && StemNumber(result[j]).None?;
      BadStemListed(names, want, j);
      return None;
    }
    NoBadStemListed(names, want);
    SortedKept(names, want);
    r := Some(SortBy(result, Key));
  }

  /** Sorting the kept names yields a sorted permutation with exactly the kept members. */
  lemma SortedKept(names: seq<string>, want: string)
    ensures multiset(SortBy(Kept(names, want), Key)) == multiset(Kept(names, want))
    ensures forall x :: x in SortBy(Kept(names, want), Key) <==> x in names && Suffix(x) == want
    ensures SortedBy(SortBy(Kept(names, want), Key), Key)
  {
    var kept := Kept(names, want);
    KeptMembers(names, want);
    SortByCorrect(kept, Key);
    SameMembers(SortBy(kept, Key), kept);
  }

  lemma BadStemListed(names: seq<string>, want: string, j: int)
    requires 0 <= j < |Kept(names, want)| && StemNumber(Kept(names, want)[j]).None?
    ensures exists i :: 0 <= i < |names| && Suffix(names[i]) == want && StemNumber(names[i]).None?
  {
    var x := Kept(names, want)[j];
    KeptMembers(names, want);
    assert x in Kept(names, want);
    var i :| 0 <= i < |names| && names[i] == x;
  }

  lemma NoBadStemListed(names: seq<string>, want: string)
    requires forall m :: 0 <= m < |Kept(names, want)| ==> StemNumber(Kept(names, want)[m]).Some?
    ensures !exists i :: 0 <= i < |names| && Suffix(names[i]) == want && StemNumber(names[i]).None?
  {
    KeptMembers(names, want);
    forall i | 0 <= i < |names| && Suffix(names[i]) == want
      ensures StemNumber(names[i]).Some?
    {
      assert names[i] in Kept(names, want);
      var m :| 0 <= m < |Kept(names, want)| && Kept(names, want)[m] == names[i];
    }
  }

  lemma SameMembers(a: seq<string>, b: seq<string>)
    requires multiset(a) == multiset(b)
    ensures forall x :: x in a <==> x in b
  {
    forall x ensures x in a <==> x in b {
      assert x in a <==> x in multiset(a);
      assert x in b <==> x in multiset(b);
    }
  }

  /**
   * The file a saved page is written to, `"{page_num}.{fmt}"`, is selected by
   * the listing filter and its stem reads back as the page number.
   */
  lemma PageFileNameRoundTrip(pageNum: int, fmt: string)
    requires fmt != [] && '.' !in fmt
    ensures Suffix(IntToString(pageNum) + "." + fmt) == "." + fmt
    ensures StemNumber(IntToString(pageNum) + "." + fmt) == Some(pageNum)
  {
    var stem := IntToString(pageNum);
    assert |stem| > 0;
    NameParts(stem, fmt);
    IntToStringRoundTrip(pageNum);
  }

  /** A name `stem.fmt` whose format has no dot splits back into `stem` and `.fmt`. */
  lemma NameParts(stem: string, fmt: string)
    requires stem != [] && fmt != [] && '.' !in fmt
    ensures Suffix(stem + "." + fmt) == "." + fmt
    ensures Stem(stem + "." + fmt) == stem
  {
    var name := stem + "." + fmt;
    assert name[|stem|] == '.';
    assert name[|stem| + 1..] == fmt;
    LastDotAt(name, |stem|);
    assert name[|stem|..] == "." + fmt;
    assert name[..|stem|] == stem;
  }

  lemma LastDotAt(s: string, k: int)
    requires 0 <= k < |s| && s[k] == '.' && '.' !in s[k + 1..]
    ensures LastDot(s) == k
  {
    var r := LastDot(s);
  }

  // ---------------------------------------------------------------------------
  // _add_bookmark / _add_outline
  // ---------------------------------------------------------------------------

  /** One node of the bookmark tree: its label, its 1-based page and its children. */
  datatype Bookmark = Bookmark(title: string, pnum: int, children: seq<Bookmark>)

  /**
   * One `add_outline_item(title, page_num, parent)` call; the parent is the
   * position, in the sequence of calls, of the call that created it.
   */
  datatype OutlineItem = OutlineItem(title: string, page: int, parent: Option<nat>)

  /**
   * `_add_outline(parent, items)` run with `total` pages in the document, after
   * the calls `out` were already made: returns all calls made so far.
   */
  function AddOutline(parent: Option<nat>, items: seq<Bookmark>, total: int, out: seq<OutlineItem>): (r: seq<OutlineItem>)
    ensures |r| >= |out|
    decreases items
  {
    if items == [] then out
    else
      var item := items[0];
      var page := item.pnum - 1;
      if page > total then out
      else
        var here := |out|;
        var withItem := out + [OutlineItem(item.title, page, parent)];
        var withChildren := if item.children != [] then AddOutline(Some(here), item.children, total, withItem) else withItem;
        AddOutline(parent, items[1..], total, withChildren)
  }

  /**
   * Reference for the calls made when every page is in range: the items in
   * depth-first pre-order, each with the position of its enclosing item as
   * parent (or the caller's parent at the top level); `base` is the position
   * of the first call.
   */
  function PreOrderCalls(parent: Option<nat>, items: seq<Bookmark>, base: nat): seq<OutlineItem>
    decreases items
  {
    if items == [] then []
    else
      var head := OutlineItem(items[0].title, items[0].pnum - 1, parent);
      var kids := PreOrderCalls(Some(base), items[0].children, base + 1);
      [head] + kids + PreOrderCalls(parent, items[1..], base + 1 + |kids|)
  }

  /** Every bookmark in the forest points at a page index not above `total`. */
  predicate AllWithin(items: seq<Bookmark>, total: int)
    decreases items
  {
    items == [] || (items[0].pnum - 1 <= total && AllWithin(items[0].children, total) && AllWithin(items[1..], total))
  }

  /**
   * The calls already made are kept, and every new call uses a page index not
   * above `total` and a parent that is the caller's or an earlier new call.
   */
  lemma OutlineExtends(parent: Option<nat>, items: seq<Bookmark>, total: int, out: seq<OutlineItem>)
    requires parent.Some? ==> parent.value < |out|
    ensures AddOutline(parent, items, total, out)[..|out|] == out
    ensures forall j :: |out| <= j < |AddOutline(parent, items, total, out)| ==>
      AddOutline(parent, items, total, out)[j].page <= total
    ensures forall j :: |out| <= j < |AddOutline(parent, items, total, out)| ==>
      var p := AddOutline(parent, items, total, out)[j].parent;
      p == parent || (p.Some? && |out| <= p.value < j)
  {
    OutlinePrefix(parent, items, total, out);
    OutlinePages(parent, items, total, out);
    OutlineParents(parent, items, total, out);
  }

  /** `_add_outline` keeps the calls already made, in order, as a prefix. */
  lemma {:induction false} OutlinePrefix(parent: Option<nat>, items: seq<Bookmark>, total: int, out: seq<OutlineItem>)
    ensures AddOutline(parent, items, total, out)[..|out|] == out
    decreases items
  {
    if items != [] && items[0].pnum - 1 <= total {
      var item := items[0];
      var withItem := out + [OutlineItem(item.title, item.pnum - 1, parent)];
      var withChildren := if item.children != [] then AddOutline(Some(|out|), item.children, total, withItem) else withItem;
      if item.children != [] {
        OutlinePrefix(Some(|out|), item.children, total, withItem);
      }
      OutlinePrefix(parent, items[1..], total, withChildren);
      var r := AddOutline(parent, items[1..], total, withChildren);
      assert r[..|out|] == withChildren[..|withItem|][..|out|];
    }
  }

  /** Every call `_add_outline` makes uses a page index not above `total`. */
  lemma {:induction false} OutlinePages(parent: Option<nat>, items: seq<Bookmark>, total: int, out: seq<OutlineItem>)
    ensures forall j :: |out| <= j < |AddOutline(parent, items, total, out)| ==>
      AddOutline(parent, items, total, out)[j].page <= total
    decreases items
  {
    if items != [] && items[0].pnum - 1 <= total {
      var item := items[0];
      var withItem := out + [OutlineItem(item.title, item.pnum - 1, parent)];
      var withChildren := if item.children != [] then AddOutline(Some(|out|), item.children, total, withItem) else withItem;
      if item.children != [] {
        OutlinePrefix(Some(|out|), item.children, total, withItem);
        OutlinePages(Some(|out|), item.children, total, withItem);
      }
      assert withChildren[|out|] == withItem[|out|];
      OutlinePrefix(parent, items[1..], total, withChildren);
      OutlinePages(parent, items[1..], total, withChildren);
      var r := AddOutline(parent, items[1..], total, withChildren);
      forall j | |out| <= j < |r|
        ensures r[j].page <= total
      {
        if j < |withChildren| {
          assert r[j] == r[..|withChildren|][j];
        }
      }
    }
  }

  /** Every call's parent is the caller's parent or an earlier call of the same run. */
  lemma {:induction false} OutlineParents(parent: Option<nat>, items: seq<Bookmark>, total: int, out: seq<OutlineItem>)
    requires parent.Some? ==> parent.value < |out|
    ensures forall j :: |out| <= j < |AddOutline(parent, items, total, out)| ==>
      var p := AddOutline(parent, items, total, out)[j].parent;
      p == parent || (p.Some? && |out| <= p.value < j)
    decreases items
  {
    if items != [] && items[0].pnum - 1 <= total {
      var item := items[0];
      var withItem := out + [OutlineItem(item.title, item.pnum - 1, parent)];
      var withChildren := if item.children != [] then AddOutline(Some(|out|), item.children, total, withItem) else withItem;
      if item.children != [] {
        OutlinePrefix(Some(|out|), item.children, total, withItem);
        OutlineParents(Some(|out|), item.children, total, withItem);
      }
      assert withChildren[|out|] == withItem[|out|];
      OutlinePrefix(parent, items[1..], total, withChildren);
      OutlineParents(parent, items[1..], total, withChildren);
      var r := AddOutline(parent, items[1..], total, withChildren);
      forall j | |out| <= j < |r|
        ensures r[j].parent == parent || (r[j].parent.Some? && |out| <= r[j].parent.value < j)
      {
        if j < |withChildren| {
          assert r[j] == r[..|withChildren|][j];
        }
      }
    }
  }

  /**
   * With every page in range, `_add_outline` emits the whole forest in
   * depth-first pre-order, each item under its enclosing item.
   */
  lemma {:induction false} OutlineInRange(parent: Option<nat>, items: seq<Bookmark>, total: int, out: seq<OutlineItem>)
    requires AllWithin(items, total)
    ensures AddOutline(parent, items, total, out) == out + PreOrderCalls(parent, items, |out|)
    decreases items
  {
    if items != [] {
      var item := items[0];
      var head := OutlineItem(item.title, item.pnum - 1, parent);
      var withItem := out + [head];
      var kids := PreOrderCalls(Some(|out|), item.children, |out| + 1);
      if item.children != [] {
        OutlineInRange(Some(|out|), item.children, total, withItem);
      }
      var withChildren := withItem + kids;
      assert item.children == [] ==> kids == [] && withChildren == withItem;
      var rest := PreOrderCalls(parent, items[1..], |out| + 1 + |kids|);
      calc {
        AddOutline(parent, items, total, out);
        AddOutline(parent, items[1..], total, withChildren);
        { OutlineInRange(parent, items[1..], total, withChildren); }
        withChildren + rest;
        { Regroup(out, head, kids, rest); }
        out + ([head] + kids + rest);
        out + PreOrderCalls(parent, items, |out|);
      }
    }
  }

  /** Regrouping the concatenation built by `OutlineInRange`, kept apart to keep that proof small. */
  lemma Regroup<T>(a: seq<T>, x: T, b: seq<T>, c: seq<T>)
    ensures a + [x] + b + c == a + ([x] + b + c)
  {
  }

  /**
   * The first bookmark of a level whose page index exceeds `total` ends that
   * level: `_add_outline` returns, so nothing after it at that level is emitted.
   */
  lemma {:induction false} OutlineStopsLevel(parent: Option<nat>, items: seq<Bookmark>, total: int, out: seq<OutlineItem>, k: nat)
    requires k < |items| && items[k].pnum - 1 > total
    ensures AddOutline(parent, items, total, out) == AddOutline(parent, items[..k], total, out)
    decreases items
  {
    if k > 0 && items[0].pnum - 1 <= total {
      var item := items[0];
      var withItem := out + [OutlineItem(item.title, item.pnum - 1, parent)];
      var withChildren := if item.children != [] then AddOutline(Some(|out|), item.children, total, withItem) else withItem;
      OutlineStopsLevel(parent, items[1..], total, withChildren, k - 1);
      assert items[..k][0] == item;
      assert items[..k][1..] == items[1..][..k - 1];
    }
  }

  /**
   * A level that stops does not stop its enclosing level, and a bookmark whose
   * page index equals `total` is still emitted.
   */
  lemma {:induction false} OutlineStopIsLocal(parent: Option<nat>, items: seq<Bookmark>, total: int, out: seq<OutlineItem>)
    requires items != [] && items[0].pnum - 1 == total
    requires items[0].children != [] && items[0].children[0].pnum - 1 > total
    ensures AddOutline(parent, items, total, out)
      == AddOutline(parent, items[1..], total, out + [OutlineItem(items[0].title, total, parent)])
  {
  }
}
