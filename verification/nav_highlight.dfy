/** Active navigation-link highlighting from the page-load handler of
    scripts.js: the current page is the last `/`-separated segment of the
    location's path, or "index.html" when that segment is empty, and every
    navigation link whose `href` names that page gets the class "active". */
module NavHighlight {
  import opened Wrappers

  /** `s.split('/')`: the pieces between separators, always at least one,
      empty pieces included. */
  function Split(s: string): (parts: seq<string>)
    ensures |parts| >= 1
    ensures forall i :: 0 <= i < |parts| ==> '/' !in parts[i]
    ensures |parts| == 1 <==> '/' !in s
  {
    if |s| == 0 then [""]
    else if s[0] == '/' then [""] + Split(s[1..])
    else
      var t := Split(s[1..]);
      [[s[0]] + t[0]] + t[1..]
  }

  /** `parts.join('/')`, the inverse of `Split`. */
  function Join(parts: seq<string>): string
    requires |parts| >= 1
  {
    if |parts| == 1 then parts[0] else parts[0] + "/" + Join(parts[1..])
  }

  lemma {:induction false} JoinSplit(s: string)
    ensures Join(Split(s)) == s
  {
    if |s| > 0 {
      JoinSplit(s[1..]);
      var t := Split(s[1..]);
      if s[0] == '/' {
        assert ([""] + t)[1..] == t;
      } else if |t| > 1 {
        assert ([[s[0]] + t[0]] + t[1..])[1..] == t[1..];
        assert Join(t) == t[0] + "/" + Join(t[1..]);
      }
    }
  }

  lemma {:induction false} SplitJoin(parts: seq<string>)
    requires |parts| >= 1
    requires forall i :: 0 <= i < |parts| ==> '/' !in parts[i]
    ensures Split(Join(parts)) == parts
  {
    if |parts| == 1 {
      SplitNoSeparator(parts[0]);
    } else {
      SplitJoin(parts[1..]);
      SplitPrefix(parts[0], Join(parts[1..]));
      assert [parts[0]] + parts[1..] == parts;
    }
  }

  lemma {:induction false} SplitNoSeparator(s: string)
    requires '/' !in s
    ensures Split(s) == [s]
  {
    if |s| > 0 {
      SplitNoSeparator(s[1..]);
      assert [s[0]] + s[1..] == s;
    }
  }

  /** Splitting a slash-free word, a separator and a rest. */
  lemma {:induction false} SplitPrefix(w: string, rest: string)
    requires '/' !in w
    ensures Split(w + "/" + rest) == [w] + Split(rest)
  {
    if |w| == 0 {
      assert w + "/" + rest == "/" + rest;
      assert ("/" + rest)[1..] == rest;
    } else {
      var s := w + "/" + rest;
      assert s[1..] == w[1..] + "/" + rest;
      SplitPrefix(w[1..], rest);
      assert [w[0]] + w[1..] == w;
    }
  }

  /** `t` is the part of `s` after its last `/`: a slash-free suffix of `s`
      that is either all of `s` or directly preceded by a `/`. */
  ghost predicate IsLastSegment(s: string, t: string) {
    && |t| <= |s|
    && t == s[|s| - |t|..]
    && '/' !in t
    && (|t| == |s| || s[|s| - |t| - 1] == '/')
  }

  /** There is only one such segment. */
  lemma LastSegmentUnique(s: string, t1: string, t2: string)
    requires IsLastSegment(s, t1) && IsLastSegment(s, t2)
    ensures t1 == t2
  {
  }

  /** `split('/').pop()` yields the last segment. */
  lemma {:induction false} LastPieceIsLastSegment(s: string)
    ensures IsLastSegment(s, Split(s)[|Split(s)| - 1])
  {
    if |s| > 0 {
      LastPieceIsLastSegment(s[1..]);
      var t := Split(s[1..]);
      var last := t[|t| - 1];
      if s[0] != '/' && |t| == 1 {
        assert Split(s)[|Split(s)| - 1] == [s[0]] + last;
        assert [s[0]] + s[1..] == s;
      }
    }
  }

  /** The page name the handler compares links against. */
  function CurrentPage(pathname: string): (page: string)
    ensures IsLastSegment(pathname, page) || (page == "index.html" && IsLastSegment(pathname, ""))
    ensures page != ""
    ensures '/' !in page
  {
    var parts := Split(pathname);
    LastPieceIsLastSegment(pathname);
    var last := parts[|parts| - 1];
    if last == "" then "index.html" else last
  }

  /** A navigation link: its `href` attribute (`None` when absent) and its
      class list. */
  datatype NavLink = NavLink(href: Option<string>, classes: set<string>)

  const ActiveClass: string := "active"

  /** The link names the current page, bare or relative to "./". */
  predicate Names(href: Option<string>, page: string) {
    href == Some(page) || href == Some("./" + page)
  }

  /** `forEach` over the links, adding "active" to those that name `page`. */
  function MarkActive(links: seq<NavLink>, page: string): (r: seq<NavLink>)
    ensures |r| == |links|
    ensures forall i :: 0 <= i < |r| ==> r[i].href == links[i].href
    ensures forall i :: 0 <= i < |r| ==>
              (ActiveClass in r[i].classes <==> ActiveClass in links[i].classes || Names(links[i].href, page))
    ensures forall i :: 0 <= i < |r| ==> links[i].classes <= r[i].classes
    ensures forall i :: 0 <= i < |r| ==> r[i].classes - links[i].classes <= {ActiveClass}
    ensures forall i :: 0 <= i < |r| && !Names(links[i].href, page) ==> r[i] == links[i]
  {
    if |links| == 0 then []
    else
      var a := links[0];
      var a' := if Names(a.href, page) then a.(classes := a.classes + {ActiveClass}) else a;
      var rest := MarkActive(links[1..], page);
      var r := [a'] + rest;
      assert forall i :: 1 <= i < |r| ==> r[i] == rest[i - 1] && links[i] == links[1..][i - 1];
      r
  }

  /** The whole highlighting step for the page at `pathname`. */
  function HighlightActive(links: seq<NavLink>, pathname: string): (r: seq<NavLink>)
    ensures |r| == |links|
    ensures forall i :: 0 <= i < |r| ==>
              (ActiveClass in r[i].classes <==>
                 ActiveClass in links[i].classes || Names(links[i].href, CurrentPage(pathname)))
  {
    MarkActive(links, CurrentPage(pathname))
  }

  /** Highlighting twice is the same as highlighting once. */
  lemma {:induction false} MarkActiveIdempotent(links: seq<NavLink>, page: string)
    ensures MarkActive(MarkActive(links, page), page) == MarkActive(links, page)
  {
    if |links| > 0 {
      MarkActiveIdempotent(links[1..], page);
      assert MarkActive(links, page)[1..] == MarkActive(links[1..], page);
    }
  }

  /** On a directory path, exactly the two index links are highlighted. */
  lemma DirectoryHighlightsIndex(dir: string, href: string)
    ensures Names(Some(href), CurrentPage(dir + "/")) <==> href in {"index.html", "./index.html"}
  {
    DirectoryIsIndex(dir);
    assert "./" + "index.html" == "./index.html";
  }

  /** The page is determined by the last segment alone: that segment, or
      "index.html" when it is empty. */
  lemma PageFromLastSegment(pathname: string, seg: string)
    requires IsLastSegment(pathname, seg)
    ensures CurrentPage(pathname) == if seg == "" then "index.html" else seg
  {
  }

  /** A file in any directory is its own page. */
  lemma FileInDirectory(dir: string, name: string)
    requires '/' !in name && name != ""
    ensures CurrentPage(dir + "/" + name) == name
  {
    var s := dir + "/" + name;
    assert s[|s| - |name|..] == name;
    assert s[|s| - |name| - 1] == '/';
    PageFromLastSegment(s, name);
  }

  /** A path ending in `/` (the site root, a directory) is "index.html". */
  lemma DirectoryIsIndex(dir: string)
    ensures CurrentPage(dir + "/") == "index.html"
  {
    var s := dir + "/";
    assert s[|s|..] == "";
    PageFromLastSegment(s, "");
  }

  /** A path without any `/` is its own page, and the empty path is
      "index.html". */
  lemma PathWithoutSeparator(pathname: string)
    requires '/' !in pathname
    ensures CurrentPage(pathname) == if pathname == "" then "index.html" else pathname
  {
  }
}
