/** Building the list of followed accounts from the links of the "following"
    page (`get_followings`, main.py:40-67). Fetching and parsing the page are
    not modelled: the input is the `href` of every anchor in document order. */
module Followings {
  import opened Results

  /** `\w` for ASCII text: a letter, a digit or an underscore. */
  predicate IsWordChar(c: char) {
    ('a' <= c <= 'z') || ('A' <= c <= 'Z') || ('0' <= c <= '9') || c == '_'
  }

  /** One or more word characters. */
  predicate IsWord(s: string) {
    s != [] && forall i :: 0 <= i < |s| ==> IsWordChar(s[i])
  }

  /** The anchor filter `re.compile(r'^/[\w]+$')`, which BeautifulSoup applies
      with `search`: a slash and one or more word characters, where `$` also
      accepts a single newline that ends the value. */
  predicate MatchesProfileLink(href: string) {
    && |href| >= 2
    && href[0] == '/'
    && (IsWord(href[1..]) || (href[|href| - 1] == '\n' && IsWord(href[1..|href| - 1])))
  }

  /** The hrefs of the anchors `find_all` selects, kept in document order. */
  function ProfileLinks(hrefs: seq<string>): (links: seq<string>)
    ensures |links| <= |hrefs|
    ensures forall h :: h in links <==> h in hrefs && MatchesProfileLink(h)
  {
    if hrefs == [] then []
    else
      var rest := ProfileLinks(hrefs[1..]);
      assert forall h :: h in hrefs <==> h == hrefs[0] || h in hrefs[1..];
      if MatchesProfileLink(hrefs[0]) then [hrefs[0]] + rest else rest
  }

  /** The guard of the collecting loop: a non-empty href that is neither the
      queried user's own profile nor the home link. */
  predicate IsKept(username: string, href: string) {
    href != "" && href != "/" + username && href != "/home"
  }

  /** `f"@{href[1:]}"`: `@` and the href without its first character (a
      Python slice, so the empty href would give `@`). */
  function Handle(href: string): string {
    "@" + if href == "" then "" else href[1..]
  }

  /** The handles the collecting loop appends, in href order, duplicates
      included. */
  function Collected(username: string, hrefs: seq<string>): seq<string> {
    if hrefs == [] then []
    else
      var init := Collected(username, hrefs[..|hrefs| - 1]);
      var href := hrefs[|hrefs| - 1];
      if IsKept(username, href) then init + [Handle(href)] else init
  }

  /** The order-preserving de-duplication of the `seen`-set comprehension:
      an element is kept when no earlier element equals it. */
  function Dedup<T(==)>(xs: seq<T>): seq<T> {
    if xs == [] then []
    else
      var init := Dedup(xs[..|xs| - 1]);
      var x := xs[|xs| - 1];
      if x in init then init else init + [x]
  }

  predicate NoDuplicates<T(==)>(xs: seq<T>) {
    forall i, j :: 0 <= i < j < |xs| ==> xs[i] != xs[j]
  }

  /** The index of the first occurrence of `x` in `xs`. */
  function IndexOf<T(==)>(xs: seq<T>, x: T): (k: nat)
    requires x in xs
    ensures k < |xs| && xs[k] == x && x !in xs[..k]
  {
    if xs[0] == x then 0
    else
      var k := 1 + IndexOf(xs[1..], x);
      assert xs[..k] == [xs[0]] + xs[1..][..k - 1];
      k
  }

  /** What `get_followings` got from the GET of the following page: the hrefs
      of the page's anchors, or a `requests.RequestException` with its text. */
  datatype PageFetch = PageReceived(anchorHrefs: seq<string>) | PageFailed(detail: string)

  const FetchErrorPrefix := "Error fetching followings: "

  /** The result of `get_followings`: the de-duplicated handles of the kept
      profile links, or the error line for a failed request. */
  function Followings(username: string, page: PageFetch): Result<seq<string>> {
    match page
    case PageFailed(detail) => Err(FetchErrorPrefix + detail)
    case PageReceived(anchorHrefs) => Ok(Dedup(Collected(username, ProfileLinks(anchorHrefs))))
  }

  /** The loop of main.py:54-58: one handle is appended per kept href. */
  method CollectHandles(username: string, hrefs: seq<string>) returns (followings: seq<string>)
    ensures followings == Collected(username, hrefs)
  {
    followings := [];
    for i := 0 to |hrefs|
      invariant followings == Collected(username, hrefs[..i])
    {
      var href := hrefs[i];
      assert hrefs[..i + 1][..i] == hrefs[..i];
      if href != "" && href != "/" + username && href != "/home" {
        followings := followings + ["@" + href[1..]];
      }
    }
    assert hrefs[..|hrefs|] == hrefs;
  }

  /** The comprehension of main.py:61-62, which filters on a `seen` set and
      adds every element it keeps to that set. */
  method RemoveDuplicates(xs: seq<string>) returns (unique: seq<string>)
    ensures unique == Dedup(xs)
  {
    var seen: set<string> := {};
    unique := [];
    for i := 0 to |xs|
      invariant unique == Dedup(xs[..i])
      invariant forall y :: y in seen <==> y in unique
    {
      var x := xs[i];
      assert xs[..i + 1][..i] == xs[..i];
      if x !in seen {
        seen := seen + {x};
        unique := unique + [x];
      }
    }
    assert xs[..|xs|] == xs;
  }

  /** `get_followings`: the outcome of the page request, then the profile-link
      filter, the collecting loop and the de-duplication. */
  method GetFollowings(username: string, page: PageFetch) returns (result: Result<seq<string>>)
    ensures result == Followings(username, page)
  {
    match page
    case PageFailed(detail) =>
      result := Err(FetchErrorPrefix + detail);
    case PageReceived(anchorHrefs) =>
      var links := ProfileLinks(anchorHrefs);
      var followings := CollectHandles(username, links);
      followings := RemoveDuplicates(followings);
      result := Ok(followings);
  }

  /** A first occurrence is recognised by nothing equal to it coming before. */
  lemma FirstIndexUnique<T>(xs: seq<T>, x: T, k: nat)
    requires k < |xs| && xs[k] == x && x !in xs[..k]
    ensures IndexOf(xs, x) == k
  {
    var j := IndexOf(xs, x);
    assert forall i :: 0 <= i < k ==> xs[..k][i] == xs[i];
    assert forall i :: 0 <= i < j ==> xs[..j][i] == xs[i];
  }

  /** Appending after the first occurrence of `x` does not move it. */
  lemma IndexOfPrefix<T>(s: seq<T>, t: seq<T>, x: T)
    requires x in s
    ensures x in s + t && IndexOf(s + t, x) == IndexOf(s, x)
  {
    var k := IndexOf(s, x);
    assert (s + t)[..k] == s[..k];
    FirstIndexUnique(s + t, x, k);
  }

  /** De-duplication keeps exactly the elements of its input. */
  lemma {:induction false} DedupElements<T>(xs: seq<T>)
    ensures forall x :: x in Dedup(xs) <==> x in xs
  {
    if xs != [] {
      var init := xs[..|xs| - 1];
      DedupElements(init);
      assert xs == init + [xs[|xs| - 1]];
    }
  }

  /** De-duplication leaves no element twice. */
  lemma {:induction false} DedupNoDuplicates<T>(xs: seq<T>)
    ensures NoDuplicates(Dedup(xs))
  {
    if xs != [] {
      DedupNoDuplicates(xs[..|xs| - 1]);
    }
  }

  /** A list without repetitions is left as it is. */
  lemma {:induction false} DedupOfUnique<T>(xs: seq<T>)
    requires NoDuplicates(xs)
    ensures Dedup(xs) == xs
  {
    if xs != [] {
      var init, x := xs[..|xs| - 1], xs[|xs| - 1];
      assert NoDuplicates(init);
      DedupOfUnique(init);
      assert x !in init;
      assert xs == init + [x];
    }
  }

  /** De-duplicating twice gives what de-duplicating once gives. */
  lemma DedupIdempotent<T>(xs: seq<T>)
    ensures Dedup(Dedup(xs)) == Dedup(xs)
  {
    DedupNoDuplicates(xs);
    DedupOfUnique(Dedup(xs));
  }

  /** De-duplication keeps first-seen order: when `x` first appears before
      `y` in the input, `x` comes before `y` in the output. */
  lemma {:induction false} DedupKeepsFirstOccurrenceOrder<T>(xs: seq<T>, x: T, y: T)
    requires x in xs && y in xs && IndexOf(xs, x) < IndexOf(xs, y)
    ensures x in Dedup(xs) && y in Dedup(xs)
    ensures IndexOf(Dedup(xs), x) < IndexOf(Dedup(xs), y)
  {
    DedupElements(xs);
    var init, z := xs[..|xs| - 1], xs[|xs| - 1];
    assert xs == init + [z];
    var d := Dedup(init);
    DedupElements(init);
    if y in init {
      IndexOfPrefix(init, [z], y);
      assert xs[IndexOf(xs, x)] == init[IndexOf(xs, x)];
      IndexOfPrefix(init, [z], x);
      DedupKeepsFirstOccurrenceOrder(init, x, y);
      if z !in d {
        IndexOfPrefix(d, [z], x);
        IndexOfPrefix(d, [z], y);
      }
    } else {
      FirstIndexUnique(xs, y, |init|);
      assert xs[IndexOf(xs, x)] == init[IndexOf(xs, x)];
      assert Dedup(xs) == d + [y];
      IndexOfPrefix(d, [y], x);
      assert (d + [y])[..|d|] == d;
      FirstIndexUnique(d + [y], y, |d|);
    }
  }

  /** The collecting loop yields exactly the handles of the kept hrefs. */
  lemma {:induction false} CollectedElements(username: string, hrefs: seq<string>)
    ensures forall x :: x in Collected(username, hrefs) <==>
      exists h :: h in hrefs && IsKept(username, h) && x == Handle(h)
  {
    if hrefs != [] {
      var init := hrefs[..|hrefs| - 1];
      CollectedElements(username, init);
      assert hrefs == init + [hrefs[|hrefs| - 1]];
    }
  }

  /** The shape of a recorded handle: `@`, then one or more word characters,
      then possibly the single newline the link pattern lets through. */
  predicate IsHandle(x: string) {
    && |x| >= 2
    && x[0] == '@'
    && (IsWord(x[1..]) || (x[|x| - 1] == '\n' && IsWord(x[1..|x| - 1])))
  }

  /** The handle of a kept profile link has the handle shape and is neither
      the queried user nor `@home`. The self and home filters compare whole
      hrefs, so this relies on every profile link starting with `/`. */
  lemma ProfileLinkHandle(username: string, href: string)
    requires MatchesProfileLink(href) && IsKept(username, href)
    ensures IsHandle(Handle(href))
    ensures Handle(href) != "@" + username && Handle(href) != "@home"
  {
    var x := Handle(href);
    assert x[1..] == href[1..];
    assert x[|x| - 1] == href[|href| - 1];
    assert x[1..|x| - 1] == href[1..|href| - 1];
    assert href == "/" + href[1..];
  }

  /** What the page yields is exactly the handles of its kept profile links:
      each one is `@` and a profile link without its slash, and every kept
      link contributes its handle. */
  lemma FollowingsAreKeptLinks(username: string, anchorHrefs: seq<string>)
    ensures Followings(username, PageReceived(anchorHrefs)).Ok?
    ensures forall x :: x in Followings(username, PageReceived(anchorHrefs)).value <==>
      exists h :: h in anchorHrefs && MatchesProfileLink(h) && IsKept(username, h) && x == Handle(h)
  {
    var links := ProfileLinks(anchorHrefs);
    CollectedElements(username, links);
    DedupElements(Collected(username, links));
  }

  /** The following list has no repeated handle, never names the queried
      user or `@home`, and holds only well-formed handles. */
  lemma FollowingsWellFormed(username: string, anchorHrefs: seq<string>)
    ensures Followings(username, PageReceived(anchorHrefs)).Ok?
    ensures var fs := Followings(username, PageReceived(anchorHrefs)).value;
      && NoDuplicates(fs)
      && forall x :: x in fs ==> IsHandle(x) && x != "@" + username && x != "@home"
  {
    var fs := Followings(username, PageReceived(anchorHrefs)).value;
    DedupNoDuplicates(Collected(username, ProfileLinks(anchorHrefs)));
    FollowingsAreKeptLinks(username, anchorHrefs);
    forall x | x in fs ensures IsHandle(x) && x != "@" + username && x != "@home" {
      var h :| h in anchorHrefs && MatchesProfileLink(h) && IsKept(username, h) && x == Handle(h);
      ProfileLinkHandle(username, h);
    }
  }

  /** When every href is a profile link, the anchor filter keeps them all. */
  lemma {:induction false} ProfileLinksKeepAll(hrefs: seq<string>)
    requires forall h :: h in hrefs ==> MatchesProfileLink(h)
    ensures ProfileLinks(hrefs) == hrefs
  {
    if hrefs != [] {
      assert hrefs[0] in hrefs;
      ProfileLinksKeepAll(hrefs[1..]);
    }
  }

  /** When every href is kept, the collecting loop records one handle per
      href, in order. */
  lemma {:induction false} CollectedAllKept(username: string, hrefs: seq<string>)
    requires forall i :: 0 <= i < |hrefs| ==> IsKept(username, hrefs[i])
    ensures |Collected(username, hrefs)| == |hrefs|
    ensures forall i :: 0 <= i < |hrefs| ==> Collected(username, hrefs)[i] == Handle(hrefs[i])
  {
    if hrefs != [] {
      CollectedAllKept(username, hrefs[..|hrefs| - 1]);
    }
  }

  /** Distinct profile links give distinct handles. */
  lemma HandleInjective(a: string, b: string)
    requires MatchesProfileLink(a) && MatchesProfileLink(b) && a != b
    ensures Handle(a) != Handle(b)
  {
    assert a == [a[0]] + Handle(a)[1..];
    assert b == [b[0]] + Handle(b)[1..];
  }

  /** The anchor filter works href by href, keeping document order: the
      links of a concatenation are the links of each part, in turn. */
  lemma {:induction false} ProfileLinksAppend(a: seq<string>, b: seq<string>)
    ensures ProfileLinks(a + b) == ProfileLinks(a) + ProfileLinks(b)
  {
    if a == [] {
      assert a + b == b;
    } else {
      assert (a + b)[0] == a[0] && (a + b)[1..] == a[1..] + b;
      ProfileLinksAppend(a[1..], b);
    }
  }

  /** The collecting loop works href by href, keeping its order: the
      handles of a concatenation are the handles of each part, in turn. */
  lemma {:induction false} CollectedAppend(username: string, a: seq<string>, b: seq<string>)
    ensures Collected(username, a + b) == Collected(username, a) + Collected(username, b)
  {
    if b == [] {
      assert a + b == a;
    } else {
      var init := b[..|b| - 1];
      assert (a + b)[..|a + b| - 1] == a + init && (a + b)[|a + b| - 1] == b[|b| - 1];
      CollectedAppend(username, a, init);
    }
  }

  /** A kept profile link between two stretches of hrefs: it stays between
      their links, and its handle between their handles. */
  lemma LinkBetween(username: string, x: seq<string>, h: string, y: seq<string>)
    requires MatchesProfileLink(h) && IsKept(username, h)
    ensures ProfileLinks(x + [h] + y) == ProfileLinks(x) + [h] + ProfileLinks(y)
    ensures Collected(username, ProfileLinks(x) + [h] + ProfileLinks(y)) ==
      Collected(username, ProfileLinks(x)) + [Handle(h)] + Collected(username, ProfileLinks(y))
  {
    ProfileLinksAppend(x + [h], y);
    ProfileLinksAppend(x, [h]);
    assert ProfileLinks([h]) == [h] by {
      assert [h][1..] == [];
    }
    var lx, ly := ProfileLinks(x), ProfileLinks(y);
    CollectedAppend(username, lx + [h], ly);
    CollectedAppend(username, lx, [h]);
    assert Collected(username, [h]) == [Handle(h)] by {
      assert [h][..0] == [];
    }
  }

  /** A position holding `x` is no earlier than its first occurrence. */
  lemma IndexOfAtMost<T>(xs: seq<T>, x: T, j: nat)
    requires j < |xs| && xs[j] == x
    ensures IndexOf(xs, x) <= j
  {
    var k := IndexOf(xs, x);
    assert forall i :: 0 <= i < k ==> xs[..k][i] == xs[i];
  }

  /** A profile link none of the hrefs equals contributes no handle
      collected from them. */
  lemma HandleNotCollected(username: string, hrefs: seq<string>, h: string)
    requires MatchesProfileLink(h) && h !in hrefs
    ensures Handle(h) !in Collected(username, ProfileLinks(hrefs))
  {
    CollectedElements(username, ProfileLinks(hrefs));
    forall g | g in ProfileLinks(hrefs) && IsKept(username, g)
      ensures Handle(g) != Handle(h)
    {
      HandleInjective(g, h);
    }
  }

  /** Before de-duplication: the handle of `h` first appears before the
      handle of `h2` when `h` comes before the first occurrence of `h2`. */
  lemma CollectedKeepsFirstSeenOrder(username: string, pre: seq<string>, h: string,
                                     mid: seq<string>, h2: string, post: seq<string>)
    requires MatchesProfileLink(h) && IsKept(username, h)
    requires MatchesProfileLink(h2) && IsKept(username, h2)
    requires h2 !in pre + [h] + mid
    ensures var c := Collected(username, ProfileLinks(pre + [h] + mid + [h2] + post));
      && Handle(h) in c && Handle(h2) in c
      && IndexOf(c, Handle(h)) < IndexOf(c, Handle(h2))
  {
    var before := pre + [h] + mid;
    assert pre + [h] + mid + [h2] + post == before + [h2] + post;
    LinkBetween(username, before, h2, post);
    LinkBetween(username, pre, h, mid);
    var p := Collected(username, ProfileLinks(pre));
    var cb := Collected(username, ProfileLinks(before));
    var c := cb + [Handle(h2)] + Collected(username, ProfileLinks(post));
    assert Collected(username, ProfileLinks(before + [h2] + post)) == c;
    assert c[|p|] == Handle(h) && c[|cb|] == Handle(h2);
    IndexOfAtMost(c, Handle(h), |p|);
    HandleNotCollected(username, before, h2);
    assert c[..|cb|] == cb;
    FirstIndexUnique(c, Handle(h2), |cb|);
  }

  /** The list keeps first-seen order from start to finish: when kept link
      `h` appears before the first occurrence of kept link `h2`, the handle
      of `h` comes before the handle of `h2`. */
  lemma FollowingsKeepFirstSeenOrder(username: string, pre: seq<string>, h: string,
                                     mid: seq<string>, h2: string, post: seq<string>)
    requires MatchesProfileLink(h) && IsKept(username, h)
    requires MatchesProfileLink(h2) && IsKept(username, h2)
    requires h2 !in pre + [h] + mid
    ensures var fs := Followings(username, PageReceived(pre + [h] + mid + [h2] + post)).value;
      && Handle(h) in fs && Handle(h2) in fs
      && IndexOf(fs, Handle(h)) < IndexOf(fs, Handle(h2))
  {
    CollectedKeepsFirstSeenOrder(username, pre, h, mid, h2, post);
    var c := Collected(username, ProfileLinks(pre + [h] + mid + [h2] + post));
    DedupKeepsFirstOccurrenceOrder(c, Handle(h), Handle(h2));
  }

  /** A link repeated later on the page is recorded once, at its first
      position. */
  lemma RepeatedLinkRecordedOnce(username: string, a: string, b: string)
    requires MatchesProfileLink(a) && MatchesProfileLink(b) && a != b
    requires IsKept(username, a) && IsKept(username, b)
    ensures Followings(username, PageReceived([a, b, a])) == Ok([Handle(a), Handle(b)])
  {
    var hrefs := [a, b, a];
    ProfileLinksKeepAll(hrefs);
    CollectedAllKept(username, hrefs);
    var collected := Collected(username, hrefs);
    assert collected == [Handle(a), Handle(b), Handle(a)];
    HandleInjective(a, b);
    assert collected[..2] == [Handle(a), Handle(b)] && collected[..2][..1] == [Handle(a)];
    assert [Handle(a)][..0] == [];
    assert Dedup([Handle(a)]) == [Handle(a)];
    assert Dedup(collected[..2]) == [Handle(a), Handle(b)];
  }

  /** The page of alice listing bob, carol and bob again yields `@bob` and
      `@carol`. */
  lemma AliceFollowsBobAndCarol(username: string, hrefs: seq<string>)
    requires username == "alice" && hrefs == ["/bob", "/carol", "/bob"]
    ensures Followings(username, PageReceived(hrefs)) == Ok(["@bob", "@carol"])
  {
    var bob, carol := hrefs[0], hrefs[1];
    assert IsWord(bob[1..]) && IsWord(carol[1..]);
    assert bob[1] != "/alice"[1] && bob[1] != "/home"[1] && bob[1] != carol[1];
    assert carol[1] != "/alice"[1] && carol[1] != "/home"[1];
    assert hrefs == [bob, carol, bob];
    RepeatedLinkRecordedOnce(username, bob, carol);
    assert Handle(bob) == "@bob" && Handle(carol) == "@carol";
  }
}
