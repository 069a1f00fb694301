/** How `vfs_resolve_path` takes a path apart, and when that agrees with how the path was put together. */
module Paths {
  const NAME_MAX := 127      // MAX_FILENAME - 1
  const DIR_MAX := 255       // MAX_PATH - 1

  // ----- components

  /** How many characters the inner loop takes from `s`: up to a slash, the end, or the limit `n`. */
  function Taken(s: string, n: nat): (r: nat)
    ensures r <= n && r <= |s|
    ensures forall i :: 0 <= i < r ==> s[i] != '/'
    ensures r < n && r < |s| ==> s[r] == '/'
  {
    if n == 0 || s == "" || s[0] == '/' then 0 else 1 + Taken(s[1..], n - 1)
  }

  /** It stops at the first slash, at the end, or at the limit. */
  lemma {:induction false} TakenIs(s: string, n: nat, i: nat)
    requires i <= n && i <= |s| && forall j :: 0 <= j < i ==> s[j] != '/'
    requires i == n || i == |s| || s[i] == '/'
    ensures Taken(s, n) == i
  {
    if i > 0 {
      TakenIs(s[1..], n - 1, i - 1);
    }
  }

  function SkipSlash(s: string): string {
    if s != "" && s[0] == '/' then s[1..] else s
  }

  /** The names looked up for `s`, in order. */
  function Walk(s: string): seq<string>
    decreases |s|
  {
    if s == "" then []
    else
      var n := Taken(s, NAME_MAX);
      [s[..n]] + Walk(SkipSlash(s[n..]))
  }

  /** The names looked up for a path; a leading slash is skipped once. */
  function Components(path: string): seq<string> {
    Walk(SkipSlash(path))
  }

  predicate SlashFree(s: string) {
    '/' !in s
  }

  function Join(cs: seq<string>): string {
    if cs == [] then "" else if |cs| == 1 then cs[0] else cs[0] + "/" + Join(cs[1..])
  }

  lemma {:induction false} TakenWhole(c: string, s: string, n: nat)
    requires SlashFree(c) && (s == "" || s[0] == '/')
    ensures Taken(c + s, n) == if |c| <= n then |c| else n
  {
    if c == "" {
      assert c + s == s;
    } else if n > 0 {
      assert (c + s)[1..] == c[1..] + s;
      TakenWhole(c[1..], s, n - 1);
    }
  }

  /** A name of at most 127 characters, followed by a slash, is one component. */
  lemma WalkName(c: string, s: string)
    requires SlashFree(c) && |c| <= NAME_MAX
    ensures Walk(c + "/" + s) == [c] + Walk(s)
    ensures c != "" ==> Walk(c) == [c]
  {
    FirstName(c, s);
    TakenWhole(c, "", NAME_MAX);
    assert c + "" == c;
  }

  lemma FirstName(c: string, s: string)
    requires SlashFree(c) && |c| <= NAME_MAX
    ensures Walk(c + "/" + s) == [c] + Walk(s)
  {
    var p, rest := c + "/" + s, "/" + s;
    assert p == c + rest && rest[1..] == s;
    TakenWhole(c, rest, NAME_MAX);
    assert p[..|c|] == c && p[|c|..] == rest;
  }

  /** A longer name is cut after 127 characters, and what is left of it is the next component. */
  lemma LongName(c: string, s: string)
    requires SlashFree(c) && |c| > 127 && (s == "" || s[0] == '/')
    ensures Walk(c + s) == [c[..127]] + Walk(c[127..] + s)
  {
    var p := c + s;
    TakenWhole(c, s, NAME_MAX);
    assert p[..127] == c[..127] && p[127..] == c[127..] + s && p[127] == c[127];
  }

  predicate AllShort(cs: seq<string>) {
    cs == [] || (|cs[0]| <= NAME_MAX && AllShort(cs[1..]))
  }

  predicate AllSlashFree(cs: seq<string>) {
    cs == [] || (SlashFree(cs[0]) && AllSlashFree(cs[1..]))
  }

  /** No component is longer than 127 characters. */
  lemma {:induction false} WalkShort(s: string)
    ensures AllShort(Walk(s))
    decreases |s|
  {
    if s != "" {
      var n := Taken(s, NAME_MAX);
      WalkShort(SkipSlash(s[n..]));
      ShortCons(s[..n], Walk(SkipSlash(s[n..])));
    }
  }

  lemma ShortCons(c: string, cs: seq<string>)
    ensures AllShort([c] + cs) <==> |c| <= NAME_MAX && AllShort(cs)
  {
    assert ([c] + cs)[1..] == cs;
  }

  lemma {:induction false} ShortLast(cs: seq<string>, c: string)
    requires AllShort(cs + [c])
    ensures |c| <= NAME_MAX
  {
    if cs != [] {
      assert (cs + [c])[1..] == cs[1..] + [c];
      ShortLast(cs[1..], c);
    }
  }

  /**
   The loop takes joined names apart into the same names exactly when none is longer than 127
   characters and the last is not empty.
   */
  lemma {:induction false} WalkJoin(cs: seq<string>)
    requires cs != [] && AllSlashFree(cs)
    ensures Walk(Join(cs)) == cs <==> AllShort(cs) && cs[|cs| - 1] != ""
  {
    if |cs[0]| > NAME_MAX {
      JoinLong(cs);
    } else if |cs| == 1 {
      JoinOne(cs);
    } else {
      WalkJoin(cs[1..]);
      JoinStep(cs, cs[1..]);
    }
  }

  lemma JoinStep(cs: seq<string>, tail: seq<string>)
    requires |cs| > 1 && SlashFree(cs[0]) && |cs[0]| <= NAME_MAX && tail == cs[1..]
    requires Walk(Join(tail)) == tail <==> AllShort(tail) && tail[|tail| - 1] != ""
    ensures Walk(Join(cs)) == cs <==> AllShort(cs) && cs[|cs| - 1] != ""
  {
    JoinMore(cs);
  }

  lemma JoinLong(cs: seq<string>)
    requires cs != [] && |cs[0]| > NAME_MAX
    ensures Walk(Join(cs)) != cs && !AllShort(cs)
  {
    WalkShort(Join(cs));
  }

  lemma JoinOne(cs: seq<string>)
    requires |cs| == 1 && SlashFree(cs[0]) && |cs[0]| <= NAME_MAX
    ensures Walk(Join(cs)) == cs <==> cs[0] != ""
    ensures AllShort(cs)
  {
    WalkOne(cs[0]);
    SameTail(cs, []);
  }

  lemma JoinMore(cs: seq<string>)
    requires |cs| > 1 && SlashFree(cs[0]) && |cs[0]| <= NAME_MAX
    ensures Walk(Join(cs)) == cs <==> Walk(Join(cs[1..])) == cs[1..]
    ensures |Walk(Join(cs))| == 1 + |Walk(Join(cs[1..]))|
    ensures AllShort(cs) <==> AllShort(cs[1..])
  {
    JoinTwo(cs);
    JoinedTail(cs, Join(cs[1..]));
  }

  /** Short names never come out as more names. */
  lemma {:induction false} WalkJoinCount(cs: seq<string>)
    requires cs != [] && AllSlashFree(cs) && AllShort(cs)
    ensures |Walk(Join(cs))| <= |cs|
  {
    if |cs| == 1 {
      WalkOne(cs[0]);
    } else {
      WalkJoinCount(cs[1..]);
      JoinMore(cs);
    }
  }

  lemma JoinTwo(cs: seq<string>)
    requires |cs| > 1
    ensures Join(cs) == cs[0] + "/" + Join(cs[1..])
  {
  }

  lemma WalkOne(c: string)
    requires SlashFree(c) && |c| <= NAME_MAX
    ensures Walk(c) == if c == "" then [] else [c]
  {
    WalkName(c, "");
  }

  /** With a slash behind, the last name may be empty. */
  lemma {:induction false} WalkJoinSlash(cs: seq<string>)
    requires cs != [] && AllSlashFree(cs)
    ensures Walk(Join(cs) + "/") == cs <==> AllShort(cs)
  {
    var j := Join(cs) + "/";
    if |cs[0]| > NAME_MAX {
      WalkShort(j);
    } else if |cs| == 1 {
      assert j == cs[0] + "/" + "";
      JoinedTail(cs, "");
    } else {
      WalkJoinSlash(cs[1..]);
      var rest := Join(cs[1..]) + "/";
      assert j == cs[0] + "/" + rest;
      JoinedTail(cs, rest);
    }
  }

  /** The names after the first come out of what follows its slash. */
  lemma JoinedTail(cs: seq<string>, s: string)
    requires cs != [] && SlashFree(cs[0]) && |cs[0]| <= NAME_MAX
    ensures Walk(cs[0] + "/" + s) == cs <==> Walk(s) == cs[1..]
    ensures |Walk(cs[0] + "/" + s)| == 1 + |Walk(s)|
  {
    FirstName(cs[0], s);
    SameTail(cs, Walk(s));
  }

  lemma SameTail(cs: seq<string>, ws: seq<string>)
    requires cs != []
    ensures [cs[0]] + ws == cs <==> ws == cs[1..]
    ensures |cs| == 1 ==> cs == [cs[0]]
  {
    assert ([cs[0]] + ws)[1..] == ws;
    assert [cs[0]] + cs[1..] == cs;
  }

  // ----- splitting at a slash

  /** The empty name that a second slash in a row stands for. */
  function Extra(d: string): seq<string> {
    if d != "" && d[|d| - 1] == '/' then [""] else []
  }

  lemma {:induction false} TakenPrefix(d: string, s: string, n: nat)
    ensures Taken(d + "/" + s, n) == Taken(d, n)
  {
    if d != "" && n > 0 {
      assert (d + "/" + s)[0] == d[0] && (d + "/" + s)[1..] == d[1..] + "/" + s;
      TakenPrefix(d[1..], s, n - 1);
    }
  }

  lemma SkipBefore(d: string, s: string)
    ensures SkipSlash(d + "/" + s) == if d == "" then s else SkipSlash(d) + "/" + s
  {
    if d == "" {
      assert d + "/" + s == "/" + s;
      assert ("/" + s)[1..] == s;
    } else if d[0] == '/' {
      assert (d + "/" + s)[1..] == d[1..] + "/" + s;
    } else {
      assert (d + "/" + s)[0] == d[0];
    }
  }

  lemma WalkEmptyName(s: string)
    ensures Walk("" + "/" + s) == [""] + Walk(s)
  {
    WalkName("", s);
  }

  /** The first component of `d` is that of `d + "/" + s`, and what is left of both differs by the same tail. */
  lemma FirstComponent(d: string, s: string)
    requires d != ""
    ensures var n := Taken(d, NAME_MAX);
            && Walk(d) == [d[..n]] + Walk(SkipSlash(d[n..]))
            && Walk(d + "/" + s) == [d[..n]] + if n == |d| then Walk(s) else Walk(SkipSlash(d[n..]) + "/" + s)
  {
    var n, p := Taken(d, NAME_MAX), d + "/" + s;
    TakenPrefix(d, s, NAME_MAX);
    assert p[..n] == d[..n];
    assert p[n..] == d[n..] + "/" + s;
    SkipBefore(d[n..], s);
  }

  lemma ExtraOfRest(d: string, n: nat)
    requires n < |d|
    ensures Extra(d) == if SkipSlash(d[n..]) == "" then [""] else Extra(SkipSlash(d[n..]))
  {
  }

  /** What a slash after `d` separates; after another slash it adds an empty name. */
  lemma {:induction false} WalkSlash(d: string, s: string)
    requires d != ""
    ensures Walk(d + "/" + s) == Walk(d) + (Extra(d) + Walk(s))
    decreases |d|
  {
    var n := Taken(d, NAME_MAX);
    var c, u, w := d[..n], SkipSlash(d[n..]), Walk(s);
    FirstComponent(d, s);
    if n == |d| {
      Glue(c, [], [], w, w);
    } else {
      ExtraOfRest(d, n);
      if u == "" {
        WalkEmptyName(s);
        Glue(c, [], [""], w, [""] + w);
      } else {
        WalkSlash(u, s);
        Glue(c, Walk(u), Extra(u), w, Walk(u + "/" + s));
      }
    }
  }

  lemma Glue(c: string, u: seq<string>, e: seq<string>, w: seq<string>, x: seq<string>)
    requires x == u + (e + w)
    ensures [c] + x == [c] + u + (e + w)
  {
  }

  lemma ComponentsSlash(d: string, s: string)
    requires d != ""
    ensures Components(d + "/" + s) == Components(d) + (Extra(d) + Walk(s))
  {
    SkipBefore(d, s);
    var u, w := SkipSlash(d), Walk(s);
    ExtraOfRest(d, 0);
    assert d[0..] == d;
    if u == "" {
      WalkEmptyName(s);
      assert [] + ([""] + w) == [""] + w;
    } else {
      WalkSlash(u, s);
    }
  }

  /** A slash in front is skipped; a path that starts with a name is walked as it is. */
  lemma Rooted(s: string)
    ensures Components("/" + s) == Walk(s) && Components("/" + s + "/") == Walk(s + "/")
  {
    assert ("/" + s)[1..] == s && ("/" + s + "/")[1..] == s + "/";
  }

  lemma Unrooted(s: string)
    requires s != "" && s[0] != '/'
    ensures Components(s) == Walk(s) && Components(s + "/") == Walk(s + "/")
  {
    assert (s + "/")[0] == s[0];
  }

  lemma JoinFirst(cs: seq<string>)
    requires cs != [] && cs[0] != "" && SlashFree(cs[0])
    ensures Join(cs) != "" && Join(cs)[0] != '/'
  {
    if |cs| > 1 {
      JoinTwo(cs);
    }
  }

  lemma JoinEmptyFirst(cs: seq<string>)
    requires |cs| > 1 && cs[0] == ""
    ensures Join(cs) == "/" + Join(cs[1..])
  {
    JoinTwo(cs);
  }

  /** An empty first name is lost: what is left has fewer names. */
  lemma EmptyFirst(cs: seq<string>)
    requires |cs| > 1 && AllSlashFree(cs)
    ensures Walk(Join(cs[1..])) != cs && Walk(Join(cs[1..]) + "/") != cs
  {
    var tail := cs[1..];
    WalkJoinSlash(tail);
    WalkShort(Join(tail));
    WalkShort(Join(tail) + "/");
    if AllShort(tail) {
      WalkJoinCount(tail);
    }
  }

  /**
   When joined names come out of a whole path, for each of the four ways to write it.  A slash in
   front is skipped once, so without it the first name must not be empty; without one behind, the
   last must not be empty; and none may exceed 127 characters.
   */
  lemma ComponentsOfJoin(cs: seq<string>)
    requires cs != [] && AllSlashFree(cs)
    ensures Components(Join(cs)) == cs <==> AllShort(cs) && cs[0] != "" && cs[|cs| - 1] != ""
    ensures Components(Join(cs) + "/") == cs <==> AllShort(cs) && cs[0] != ""
    ensures Components("/" + Join(cs)) == cs <==> AllShort(cs) && cs[|cs| - 1] != ""
    ensures Components("/" + Join(cs) + "/") == cs <==> AllShort(cs)
  {
    RootedJoin(cs);
    PlainJoin(cs);
  }

  lemma RootedJoin(cs: seq<string>)
    requires cs != [] && AllSlashFree(cs)
    ensures Components("/" + Join(cs)) == cs <==> AllShort(cs) && cs[|cs| - 1] != ""
    ensures Components("/" + Join(cs) + "/") == cs <==> AllShort(cs)
  {
    WalkJoin(cs);
    WalkJoinSlash(cs);
    Rooted(Join(cs));
  }

  lemma PlainJoin(cs: seq<string>)
    requires cs != [] && AllSlashFree(cs)
    ensures Components(Join(cs)) == cs <==> AllShort(cs) && cs[0] != "" && cs[|cs| - 1] != ""
    ensures Components(Join(cs) + "/") == cs <==> AllShort(cs) && cs[0] != ""
  {
    if cs[0] != "" {
      WalkJoin(cs);
      WalkJoinSlash(cs);
      JoinFirst(cs);
      Unrooted(Join(cs));
    } else if |cs| > 1 {
      JoinEmptyFirst(cs);
      Rooted(Join(cs[1..]));
      EmptyFirst(cs);
    } else {
      Rooted("");
      assert "" + "/" == "/" + "";
    }
  }

  /** A path that starts with an empty name does not keep it. */
  lemma LeadingNameLost()
    ensures Join(["", "a"]) == "/a" && Components("/a") == ["a"]
  {
    assert ["", "a"][1..] == ["a"] && "" + "/" + "a" == "/a";
    assert "/a"[1..] == "a";
    WalkName("a", "");
  }

  // ----- the characters of a path

  /** The characters of a path that are no slashes, in order. */
  function Letters(s: string): string {
    if s == "" then "" else (if s[0] == '/' then "" else [s[0]]) + Letters(s[1..])
  }

  function Flat(cs: seq<string>): string {
    if cs == [] then "" else cs[0] + Flat(cs[1..])
  }

  lemma {:induction false} LettersConcat(s: string, t: string)
    ensures Letters(s + t) == Letters(s) + Letters(t)
  {
    if s == "" {
      assert s + t == t;
    } else {
      assert (s + t)[1..] == s[1..] + t;
      LettersConcat(s[1..], t);
    }
  }

  lemma {:induction false} AllLetters(s: string)
    requires SlashFree(s)
    ensures Letters(s) == s
  {
    if s != "" {
      AllLetters(s[1..]);
    }
  }

  lemma LettersSplit(s: string, n: nat)
    requires n <= |s| && SlashFree(s[..n])
    ensures Letters(s) == s[..n] + Letters(SkipSlash(s[n..]))
  {
    var c, u := s[..n], s[n..];
    assert s == c + u;
    LettersConcat(c, u);
    AllLetters(c);
    LettersSkip(u);
  }

  lemma LettersSkip(u: string)
    ensures Letters(u) == Letters(SkipSlash(u))
  {
    if u != "" && u[0] == '/' {
      NothingAdded(Letters(u[1..]));
    }
  }

  lemma NothingAdded(s: string)
    ensures "" + s == s
  {
  }

  lemma FlatCons(c: string, cs: seq<string>)
    ensures Flat([c] + cs) == c + Flat(cs)
  {
    assert ([c] + cs)[1..] == cs;
  }

  /** The components, one after the other, are the path without its slashes. */
  lemma {:induction false} WalkChars(s: string)
    ensures Flat(Walk(s)) == Letters(s)
    decreases |s|
  {
    if s != "" {
      var n := Taken(s, NAME_MAX);
      var u := SkipSlash(s[n..]);
      WalkChars(u);
      LettersSplit(s, n);
      FlatCons(s[..n], Walk(u));
    }
  }

  lemma {:induction false} TakenOfPrefix(t: string, s: string, n: nat)
    requires t <= s
    ensures Taken(t, n) == if Taken(s, n) <= |t| then Taken(s, n) else |t|
  {
    if n > 0 && t != "" && s[0] != '/' {
      TakenOfPrefix(t[1..], s[1..], n - 1);
    }
  }

  lemma SkipOfPrefix(t: string, s: string, n: nat)
    requires t <= s && n < |t|
    ensures SkipSlash(t[n..]) <= SkipSlash(s[n..])
  {
    assert t[n..] <= s[n..];
  }

  lemma AtMostOne(t: string)
    requires Taken(t, NAME_MAX) == |t|
    ensures |Walk(t)| <= 1
  {
    assert t[|t|..] == "";
  }

  lemma WalkLength(s: string)
    requires s != ""
    ensures |Walk(s)| == 1 + |Walk(SkipSlash(s[Taken(s, NAME_MAX)..]))|
  {
  }

  /** A prefix of a path has no more components. */
  lemma {:induction false} WalkPrefix(t: string, s: string)
    requires t <= s
    ensures |Walk(t)| <= |Walk(s)|
    decreases |s|
  {
    var n := Taken(s, NAME_MAX);
    TakenOfPrefix(t, s, NAME_MAX);
    if s != "" {
      WalkLength(s);
      if |t| <= n {
        AtMostOne(t);
      } else {
        WalkLength(t);
        SkipOfPrefix(t, s, n);
        WalkPrefix(SkipSlash(t[n..]), SkipSlash(s[n..]));
      }
    }
  }

  // ----- the parent directory

  /** Index of the last slash, or -1. */
  function LastSlash(path: string): (k: int)
    ensures -1 <= k < |path|
    ensures k >= 0 ==> path[k] == '/'
    ensures forall i :: k < i < |path| ==> path[i] != '/'
  {
    if path == "" then -1
    else if path[|path| - 1] == '/' then |path| - 1
    else LastSlash(path[..|path| - 1])
  }

  /** The directory part that `vfs_create`, `vfs_mkdir` and `vfs_unlink` resolve: at most 255 characters. */
  function DirPart(path: string): string
    requires LastSlash(path) >= 0
  {
    Cut(path[..LastSlash(path)])
  }

  /** The part of a directory name that its buffer holds. */
  function Cut(d: string): string {
    d[..if |d| <= DIR_MAX then |d| else DIR_MAX]
  }

  function NamePart(path: string): string {
    path[LastSlash(path) + 1..]
  }

  /** The names looked up when the directory of the path is resolved; a bare name is looked up in the root. */
  function DirNames(path: string): seq<string> {
    if LastSlash(path) < 0 then [] else Components(DirPart(path))
  }

  /** The names looked up when the directory is resolved and the name looked up in it. */
  function SplitNames(path: string): seq<string> {
    DirNames(path) + [NamePart(path)]
  }

  /**
   When splitting off the last name is harmless.  A path that ends in a name: the name fits its
   buffer, the directory part fits its own and does not end in a slash.  A path that ends in a
   slash: there are two of them, and what the buffer cuts off is at most the first of the two.
   */
  predicate SplitSafe(path: string) {
    var k := LastSlash(path);
    if k < 0 then 0 < |path| <= NAME_MAX else SafeAt(path[..k], path[k + 1..])
  }

  predicate SafeAt(d: string, n: string) {
    var slash := d != "" && d[|d| - 1] == '/';
    if n != "" then |d| <= DIR_MAX && !slash && |n| <= NAME_MAX
    else slash && (|d| <= DIR_MAX || (|d| == DIR_MAX + 1 && d[|d| - 2] != '/'))
  }

  /**
   Splitting off the name and resolving the rest looks up the same names as resolving the whole
   path exactly when the split is safe.
   */
  lemma SplitAgrees(path: string)
    ensures Components(path) == SplitNames(path) <==> SplitSafe(path)
  {
    var k := LastSlash(path);
    if k < 0 {
      OneName(path);
      FromStart(path, k + 1);
      NoneBefore(DirNames(path), path);
    } else {
      SplitParts(path[..k], path[k + 1..]);
      CutAt(path, k);
    }
  }

  lemma OneName(s: string)
    requires SlashFree(s)
    ensures Components(s) == [s] <==> 0 < |s| <= NAME_MAX
  {
    if s != "" {
      SplitName(s);
    }
  }

  lemma FromStart(path: string, k: int)
    requires k == 0
    ensures path[k..] == path
  {
  }

  lemma NoneBefore(names: seq<string>, name: string)
    requires names == []
    ensures names + [name] == [name]
  {
  }

  lemma CutAt(path: string, k: nat)
    requires k < |path| && path[k] == '/'
    ensures path == path[..k] + "/" + path[k + 1..]
  {
  }

  /** The split at a slash with directory `d` before it and name `n` behind it. */
  lemma SplitParts(d: string, n: string)
    requires SlashFree(n)
    ensures Components(d + "/" + n) == Components(Cut(d)) + [n] <==> SafeAt(d, n)
  {
    if n == "" {
      SplitEmpty(d);
    } else {
      SplitAt(d, n);
    }
  }

  lemma SplitAt(d: string, n: string)
    requires n != "" && SlashFree(n)
    ensures Components(d + "/" + n) == Components(Cut(d)) + [n]
            <==> |d| <= DIR_MAX && (d != "" ==> d[|d| - 1] != '/') && |n| <= NAME_MAX
  {
    if d == "" {
      SkipBefore(d, n);
      SplitName(n);
      assert [] + [n] == [n];
    } else {
      SplitBelow(d, n);
    }
  }

  lemma SplitBelow(d: string, n: string)
    requires d != "" && n != "" && SlashFree(n)
    ensures Components(d + "/" + n) == Components(Cut(d)) + [n]
            <==> |d| <= DIR_MAX && d[|d| - 1] != '/' && |n| <= NAME_MAX
  {
    if |n| <= NAME_MAX {
      SplitShortName(d, n);
    } else {
      SplitLongName(d, n);
    }
  }

  lemma SplitShortName(d: string, n: string)
    requires d != "" && n != "" && SlashFree(n) && |n| <= NAME_MAX
    ensures Components(d + "/" + n) == Components(Cut(d)) + [n] <==> |d| <= DIR_MAX && d[|d| - 1] != '/'
  {
    ComponentsSlash(d, n);
    SplitDirectory(d);
    SplitName(n);
    LastAppended(Components(d), Extra(d), Components(Cut(d)), n);
  }

  lemma LastAppended(ds: seq<string>, e: seq<string>, ts: seq<string>, n: string)
    ensures ds + (e + [n]) == ts + [n] <==> ds + e == ts
  {
    assert ds + (e + [n]) == (ds + e) + [n];
    SameInit(ds + e, ts, n);
  }

  /** A name that does not fit its buffer is no component. */
  lemma SplitLongName(d: string, n: string)
    requires |n| > NAME_MAX
    ensures Components(d + "/" + n) != Components(Cut(d)) + [n]
  {
    var ts := Components(Cut(d));
    WalkShort(SkipSlash(d + "/" + n));
    if AllShort(ts + [n]) {
      ShortLast(ts, n);
    }
  }

  lemma SameInit(xs: seq<string>, ys: seq<string>, n: string)
    ensures xs + [n] == ys + [n] <==> xs == ys
  {
    if xs + [n] == ys + [n] {
      assert xs == (xs + [n])[..|xs|] && ys == (ys + [n])[..|ys|];
    }
  }

  lemma SplitName(n: string)
    requires n != "" && SlashFree(n)
    ensures Walk(n) == [n] <==> |n| <= NAME_MAX
  {
    if |n| <= NAME_MAX {
      WalkName(n, "");
    } else {
      WalkShort(n);
      assert !AllShort([n]);
    }
  }

  /** The directory part in its buffer has the components that the whole path demands before a name. */
  lemma SplitDirectory(d: string)
    requires d != ""
    ensures Components(d) + Extra(d) == Components(Cut(d)) <==> |d| <= DIR_MAX && d[|d| - 1] != '/'
  {
    var ds, ts := Components(d), Components(Cut(d));
    CutComponents(d);
    if d[|d| - 1] == '/' {
      assert |ds + Extra(d)| == |ds| + 1;
    } else {
      assert ds + Extra(d) == ds;
    }
  }

  /** Cutting a directory name never adds components, and loses characters unless it cuts off slashes only. */
  lemma CutComponents(d: string)
    requires d != ""
    ensures |Components(Cut(d))| <= |Components(d)|
    ensures |d| <= DIR_MAX ==> Cut(d) == d
    ensures |d| > DIR_MAX && d[|d| - 1] != '/' ==> Components(Cut(d)) != Components(d)
  {
    var t := Cut(d);
    assert SkipSlash(t) <= SkipSlash(d);
    WalkPrefix(SkipSlash(t), SkipSlash(d));
    if |d| <= DIR_MAX {
      assert t == d;
    } else if d[|d| - 1] != '/' {
      SkipChars(d);
      SkipChars(t);
      FewerLetters(d, DIR_MAX);
    }
  }

  // ----- paths that end in a slash

  lemma SplitEmpty(d: string)
    ensures Components(d + "/" + "") == Components(Cut(d)) + [""]
            <==> d != "" && d[|d| - 1] == '/' && (|d| <= DIR_MAX || (|d| == DIR_MAX + 1 && d[|d| - 2] != '/'))
  {
    if d == "" {
      SkipBefore(d, "");
    } else if d[|d| - 1] == '/' {
      var b := d[..|d| - 1];
      assert d == b + "/";
      SplitTwoSlashes(b);
    } else {
      SplitOneSlash(d);
    }
  }

  lemma SplitTwoSlashes(b: string)
    ensures Components(b + "/" + "/" + "") == Components(Cut(b + "/")) + [""]
            <==> |b| < DIR_MAX || (|b| == DIR_MAX && b[|b| - 1] != '/')
  {
    ComponentsSlash(b + "/", "");
    SlashesCutOff(b);
    EmptyBehind(Components(b + "/"), Components(Cut(b + "/")));
  }

  lemma SplitOneSlash(d: string)
    requires d != "" && d[|d| - 1] != '/'
    ensures Components(d + "/" + "") != Components(Cut(d)) + [""]
  {
    var ds, ts := Components(d), Components(Cut(d));
    ComponentsSlash(d, "");
    LastComponentNotEmpty(d);
    NothingBehind(ds, ts);
  }

  lemma EmptyBehind(ds: seq<string>, ts: seq<string>)
    ensures ds + ([""] + []) == ts + [""] <==> ds == ts
  {
    assert ds + ([""] + []) == ds + [""];
    SameInit(ds, ts, "");
  }

  lemma NothingBehind(ds: seq<string>, ts: seq<string>)
    requires ds != [] && ds[|ds| - 1] != ""
    ensures ds + ([] + []) != ts + [""]
  {
    assert (ds + ([] + []))[|ds| - 1] != "";
  }

  lemma LastComponentNotEmpty(d: string)
    requires d != "" && d[|d| - 1] != '/'
    ensures Components(d) != [] && Components(d)[|Components(d)| - 1] != ""
  {
    LastNotEmpty(SkipSlash(d));
  }

  /** What follows the last slash is a component that is not empty. */
  lemma {:induction false} LastNotEmpty(s: string)
    requires s != "" && s[|s| - 1] != '/'
    ensures Walk(s) != [] && Walk(s)[|Walk(s)| - 1] != ""
    decreases |s|
  {
    var n := Taken(s, NAME_MAX);
    var u := SkipSlash(s[n..]);
    if u == "" {
      assert n == |s|;
      assert Walk(s) == [s[..n]];
    } else {
      LastNotEmpty(u);
    }
  }

  /**
   A directory name that ends in a slash keeps its components in its buffer exactly when nothing is
   cut off, or only that slash, behind a name.
   */
  lemma SlashesCutOff(b: string)
    ensures Components(Cut(b + "/")) == Components(b + "/")
            <==> |b| < DIR_MAX || (|b| == DIR_MAX && b[|b| - 1] != '/')
  {
    if |b| < DIR_MAX {
      assert Cut(b + "/") == b + "/";
    } else {
      assert Cut(b + "/") == Cut(b);
      OneSlashMore(b);
      CutComponents(b);
    }
  }

  /** A slash more leaves the components alone behind a name, and adds one behind a slash. */
  lemma OneSlashMore(b: string)
    requires b != ""
    ensures b[|b| - 1] == '/' ==> |Components(b + "/")| == |Components(b)| + 1
    ensures b[|b| - 1] != '/' ==> Components(b + "/") == Components(b)
  {
    ComponentsSlash(b, "");
    assert b + "/" + "" == b + "/";
    assert Components(b) + ([] + []) == Components(b);
  }

  lemma SkipChars(s: string)
    ensures Flat(Components(s)) == Letters(s)
  {
    LettersSkip(s);
    WalkChars(SkipSlash(s));
  }

  lemma FewerLetters(d: string, m: nat)
    requires m < |d| && d[|d| - 1] != '/'
    ensures |Letters(d[..m])| < |Letters(d)|
  {
    LettersConcat(d[..m], d[m..|d| - 1]);
    LettersConcat(d[..|d| - 1], d[|d| - 1..]);
    assert d[..m] + d[m..|d| - 1] == d[..|d| - 1] && d[..|d| - 1] + d[|d| - 1..] == d;
    assert d[|d| - 1..][1..] == "";
  }
}
