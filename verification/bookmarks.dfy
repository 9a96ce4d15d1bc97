/** The bookmark list of the `useBookmarks` hook: a list of saved snippets,
    newest first, whose ids are kept pairwise distinct. */
module Bookmarks {

  /** A saved snippet. `savedAt` is an ISO timestamp supplied by the caller. */
  datatype Bookmark = Bookmark(
    id: string,
    topic: string,
    title: string,
    image: string,
    content: string,
    example: string,
    savedAt: string)

  /** What a caller hands in: a bookmark without its id and timestamp. */
  datatype SnippetInfo = SnippetInfo(
    topic: string,
    title: string,
    image: string,
    content: string,
    example: string)

  // ---------------------------------------------------------------------
  // Id derivation: lower-case `topic-title`, then `replace(/\s+/g, "-")`.
  // ---------------------------------------------------------------------

  /** The characters the ECMAScript `\s` class matches: the white space and
      line terminator code points of ECMA-262. */
  predicate IsSpace(c: char) {
    || ('\U{9}' <= c <= '\U{D}')
    || c == '\U{20}' || c == '\U{A0}' || c == '\U{1680}'
    || ('\U{2000}' <= c <= '\U{200A}')
    || c == '\U{2028}' || c == '\U{2029}' || c == '\U{202F}'
    || c == '\U{205F}' || c == '\U{3000}' || c == '\U{FEFF}'
  }

  /** Among ASCII characters, `\s` matches exactly space, tab, line feed,
      vertical tab, form feed and carriage return; so `-` and every letter
      and digit are kept by the replacement. */
  lemma AsciiSpaces(c: char)
    requires c < '\U{80}'
    ensures IsSpace(c) <==> c == ' ' || '\t' <= c <= '\r'
  {
  }

  predicate NoSpace(s: string) {
    forall i :: 0 <= i < |s| ==> !IsSpace(s[i])
  }

  predicate AllSpace(s: string) {
    forall i :: 0 <= i < |s| ==> IsSpace(s[i])
  }

  predicate IsUpper(c: char) {
    'A' <= c <= 'Z'
  }

  predicate NoUpper(s: string) {
    forall i :: 0 <= i < |s| ==> !IsUpper(s[i])
  }

  /** Lower-casing of one character (ASCII letters only). */
  function LowerChar(c: char): (d: char)
    ensures !IsUpper(d)
    ensures IsUpper(c) ==> d as int == c as int + 32
    ensures !IsUpper(c) ==> d == c
  {
    if IsUpper(c) then (c as int + 32) as char else c
  }

  /** `toLowerCase`, position by position. */
  function ToLower(s: string): (r: string)
    ensures |r| == |s|
    ensures NoUpper(r)
    ensures forall i :: 0 <= i < |r| ==> (IsSpace(r[i]) <==> IsSpace(s[i]))
    ensures forall i :: 0 <= i < |r| ==> (IsUpper(s[i]) || r[i] == s[i])
    ensures forall i :: 0 <= i < |s| && IsUpper(s[i]) ==> r[i] as int == s[i] as int + 32
  {
    seq(|s|, i requires 0 <= i < |s| => LowerChar(s[i]))
  }

  /** The characters that survive id derivation untouched: everything but
      white space and the `-` separator. */
  function Letters(s: string): string
  {
    if |s| == 0 then []
    else (if IsSpace(s[0]) || s[0] == '-' then [] else [s[0]]) + Letters(s[1..])
  }

  /** Skip a leading run of white space. */
  function DropSpaces(s: string): (r: string)
    ensures |r| <= |s| && r == s[|s| - |r|..]
    ensures AllSpace(s[..|s| - |r|])
    ensures |r| > 0 ==> !IsSpace(r[0])
    decreases |s|
  {
    if |s| > 0 && IsSpace(s[0]) then
      var r := DropSpaces(s[1..]);
      assert s[1..][|s| - 1 - |r|..] == s[|s| - |r|..];
      var dropped, inner := s[..|s| - |r|], s[1..][..|s| - 1 - |r|];
      assert forall i :: 1 <= i < |dropped| ==> dropped[i] == inner[i - 1];
      r
    else
      s
  }

  /** Skipping white space keeps the letters. */
  lemma {:induction false} DropKeepsLetters(s: string)
    ensures Letters(DropSpaces(s)) == Letters(s)
    decreases |s|
  {
    if |s| > 0 && IsSpace(s[0]) {
      DropKeepsLetters(s[1..]);
    }
  }

  /** Putting a non-space character in front keeps a string space-free. */
  lemma ConsNoSpace(c: char, t: string)
    requires !IsSpace(c) && NoSpace(t)
    ensures NoSpace([c] + t)
  {
    assert forall i :: 1 <= i < |[c] + t| ==> ([c] + t)[i] == t[i - 1];
  }

  /** Putting a non-upper-case character in front keeps a string free of
      upper case. */
  lemma ConsNoUpper(c: char, t: string)
    requires !IsUpper(c) && NoUpper(t)
    ensures NoUpper([c] + t)
  {
    assert forall i :: 1 <= i < |[c] + t| ==> ([c] + t)[i] == t[i - 1];
  }

  /** A suffix of a string free of upper case is free of it too. */
  lemma SuffixNoUpper(s: string, k: nat)
    requires k <= |s| && NoUpper(s)
    ensures NoUpper(s[k..])
  {
    assert forall i :: 0 <= i < |s| - k ==> s[k..][i] == s[k + i];
  }

  /** `replace(/\s+/g, "-")`: each maximal run of white space becomes one
      `-`; every other character is kept in place. */
  function CollapseSpaces(s: string): (r: string)
    ensures NoSpace(r)
    ensures NoUpper(s) ==> NoUpper(r)
    ensures NoSpace(s) ==> r == s
    decreases |s|
  {
    if |s| == 0 then ""
    else if IsSpace(s[0]) then
      var d := DropSpaces(s[1..]);
      var rest := CollapseSpaces(d);
      ConsNoSpace('-', rest);
      assert NoUpper(s) ==> NoUpper("-" + rest) by {
        if NoUpper(s) {
          SuffixNoUpper(s, |s| - |d|);
          ConsNoUpper('-', rest);
        }
      }
      "-" + rest
    else
      var rest := CollapseSpaces(s[1..]);
      ConsNoSpace(s[0], rest);
      assert NoUpper(s) ==> NoUpper([s[0]] + rest) by {
        if NoUpper(s) {
          SuffixNoUpper(s, 1);
          ConsNoUpper(s[0], rest);
        }
      }
      assert NoSpace(s) ==> s == [s[0]] + s[1..];
      [s[0]] + rest
  }

  /** Collapsing never adds, drops or reorders a character other than white
      space and `-`. */
  lemma {:induction false} CollapseKeepsLetters(s: string)
    ensures Letters(CollapseSpaces(s)) == Letters(s)
    decreases |s|
  {
    if |s| > 0 {
      if IsSpace(s[0]) {
        var rest := CollapseSpaces(DropSpaces(s[1..]));
        CollapseKeepsLetters(DropSpaces(s[1..]));
        DropKeepsLetters(s[1..]);
        assert ("-" + rest)[1..] == rest;
      } else {
        var rest := CollapseSpaces(s[1..]);
        CollapseKeepsLetters(s[1..]);
        assert ([s[0]] + rest)[1..] == rest;
      }
    }
  }

  /** Dropping a run of white space in front of a non-space suffix lands on
      that suffix. */
  lemma {:induction false} DropSpacesOverRun(w: string, b: string)
    requires AllSpace(w)
    requires |b| == 0 || !IsSpace(b[0])
    ensures DropSpaces(w + b) == b
    decreases |w|
  {
    if |w| > 0 {
      assert (w + b)[1..] == w[1..] + b;
      DropSpacesOverRun(w[1..], b);
    } else {
      assert w + b == b;
    }
  }

  /** The first white-space run after a space-free prefix is replaced by a
      single `-`, and the remainder is collapsed the same way; with the
      identity on space-free strings this pins down `CollapseSpaces`. */
  lemma {:induction false} CollapseFirstRun(a: string, w: string, b: string)
    requires NoSpace(a)
    requires |w| > 0 && AllSpace(w)
    requires |b| == 0 || !IsSpace(b[0])
    ensures CollapseSpaces(a + w + b) == a + ("-" + CollapseSpaces(b))
    decreases |a|
  {
    if |a| == 0 {
      assert a + w + b == w + b;
      CollapseLeadingRun(w, b);
      assert a + ("-" + CollapseSpaces(b)) == "-" + CollapseSpaces(b);
    } else {
      var t := a[1..] + w + b;
      var y := CollapseSpaces(b);
      assert a + w + b == [a[0]] + t;
      CollapseNonSpaceHead(a[0], t);
      CollapseFirstRun(a[1..], w, b);
      ConsAssoc(a, "-" + y);
    }
  }

  lemma ConsAssoc(a: string, z: string)
    requires |a| > 0
    ensures [a[0]] + (a[1..] + z) == a + z
  {
    assert a == [a[0]] + a[1..];
  }

  /** A leading white-space run becomes one `-`. */
  lemma CollapseLeadingRun(w: string, b: string)
    requires |w| > 0 && AllSpace(w)
    requires |b| == 0 || !IsSpace(b[0])
    ensures CollapseSpaces(w + b) == "-" + CollapseSpaces(b)
  {
    var x := w + b;
    assert IsSpace(x[0]);
    assert x[1..] == w[1..] + b;
    DropSpacesOverRun(w[1..], b);
  }

  /** A leading non-space character is kept. */
  lemma CollapseNonSpaceHead(c: char, t: string)
    requires !IsSpace(c)
    ensures CollapseSpaces([c] + t) == [c] + CollapseSpaces(t)
  {
    assert ([c] + t)[0] == c;
    assert ([c] + t)[1..] == t;
  }

  /** The id under which a snippet is bookmarked. */
  function BookmarkId(topic: string, title: string): (id: string)
    ensures NoSpace(id)
    ensures NoUpper(id)
    ensures Letters(id) == Letters(ToLower(topic + "-" + title))
  {
    CollapseKeepsLetters(ToLower(topic + "-" + title));
    CollapseSpaces(ToLower(topic + "-" + title))
  }

  /** Lower-casing commutes with concatenation. */
  lemma ToLowerConcat(a: string, b: string)
    ensures ToLower(a + b) == ToLower(a) + ToLower(b)
  {
    var l, r := ToLower(a + b), ToLower(a) + ToLower(b);
    assert |l| == |r|;
    forall i | 0 <= i < |l|
      ensures l[i] == r[i]
    {
      if i < |a| {
        assert (a + b)[i] == a[i];
      } else {
        assert (a + b)[i] == b[i - |a|];
      }
    }
  }

  /** For a topic and a title without white space, the id is just the two
      lower-cased and joined by `-`: collapsing has nothing to do. */
  lemma BookmarkIdJoins(topic: string, title: string)
    requires NoSpace(topic) && NoSpace(title)
    ensures BookmarkId(topic, title) == ToLower(topic) + "-" + ToLower(title)
  {
    var joined := topic + "-" + title;
    assert NoSpace(joined) by {
      forall i | 0 <= i < |joined|
        ensures !IsSpace(joined[i])
      {
        if i < |topic| {
          assert joined[i] == topic[i];
        } else if i > |topic| {
          assert joined[i] == title[i - |topic| - 1];
        }
      }
    }
    ToLowerConcat(topic + "-", title);
    ToLowerConcat(topic, "-");
  }

  // ---------------------------------------------------------------------
  // The list and its operations.
  // ---------------------------------------------------------------------

  /** No two entries share an id. */
  predicate UniqueIds(bs: seq<Bookmark>) {
    forall i, j :: 0 <= i < j < |bs| ==> bs[i].id != bs[j].id
  }

  /** `bookmarks.some((b) => b.id === id)`, scanning from the front. */
  function HasId(bs: seq<Bookmark>, id: string): (r: bool)
    ensures r <==> exists i :: 0 <= i < |bs| && bs[i].id == id
  {
    if |bs| == 0 then false
    else if bs[0].id == id then true
    else
      var r := HasId(bs[1..], id);
      assert forall i :: 1 <= i < |bs| ==> bs[i] == bs[1..][i - 1];
      r
  }

  /** `addBookmark`: prepend a new entry unless its id is already present. */
  function AddBookmark(bs: seq<Bookmark>, sn: SnippetInfo, savedAt: string): (r: seq<Bookmark>)
    ensures HasId(r, BookmarkId(sn.topic, sn.title))
    ensures HasId(bs, BookmarkId(sn.topic, sn.title)) ==> r == bs
    ensures !HasId(bs, BookmarkId(sn.topic, sn.title)) ==>
              && |r| == |bs| + 1
              && r[1..] == bs
              && r[0] == Bookmark(BookmarkId(sn.topic, sn.title), sn.topic, sn.title,
                                  sn.image, sn.content, sn.example, savedAt)
    ensures UniqueIds(bs) ==> UniqueIds(r)
  {
    var id := BookmarkId(sn.topic, sn.title);
    if HasId(bs, id) then bs
    else
      var r := [Bookmark(id, sn.topic, sn.title, sn.image, sn.content, sn.example, savedAt)] + bs;
      assert r[0].id == id;
      assert forall i :: 1 <= i < |r| ==> r[i] == bs[i - 1];
      ConsUnique(r[0], bs);
      r
  }

  /** A list with a new head has distinct ids exactly when the tail has and
      the head's id is not in the tail. */
  lemma ConsUnique(x: Bookmark, rest: seq<Bookmark>)
    ensures UniqueIds([x] + rest) <==> UniqueIds(rest) && !HasId(rest, x.id)
  {
    var r := [x] + rest;
    assert forall i :: 1 <= i < |r| ==> r[i] == rest[i - 1];
    if UniqueIds(rest) && !HasId(rest, x.id) {
      forall i, j | 0 <= i < j < |r| ensures r[i].id != r[j].id {
        if i == 0 {
          assert rest[j - 1].id != x.id;
        }
      }
    }
    if UniqueIds(r) {
      forall i, j | 0 <= i < j < |rest| ensures rest[i].id != rest[j].id {
        assert r[i + 1].id != r[j + 1].id;
      }
      forall i | 0 <= i < |rest| ensures rest[i].id != x.id {
        assert r[0].id != r[i + 1].id;
      }
    }
  }

  /** `removeBookmark`: `bookmarks.filter((b) => b.id !== id)`. */
  function RemoveBookmark(bs: seq<Bookmark>, id: string): (r: seq<Bookmark>)
    ensures !HasId(r, id)
    ensures forall b :: b in r <==> b in bs && b.id != id
    ensures |r| <= |bs|
    ensures !HasId(bs, id) ==> r == bs
  {
    if |bs| == 0 then []
    else
      var rest := RemoveBookmark(bs[1..], id);
      assert bs == [bs[0]] + bs[1..];
      if bs[0].id == id then rest
      else [bs[0]] + rest
  }

  /** On a list with distinct ids, removal keeps them distinct and drops
      exactly one entry when the id is present. */
  lemma {:induction false} RemoveKeepsUnique(bs: seq<Bookmark>, id: string)
    requires UniqueIds(bs)
    ensures UniqueIds(RemoveBookmark(bs, id))
    ensures HasId(bs, id) ==> |RemoveBookmark(bs, id)| == |bs| - 1
    decreases |bs|
  {
    if |bs| > 0 {
      var rest := RemoveBookmark(bs[1..], id);
      assert bs == [bs[0]] + bs[1..];
      ConsUnique(bs[0], bs[1..]);
      RemoveKeepsUnique(bs[1..], id);
      if bs[0].id != id {
        assert !HasId(rest, bs[0].id);
        ConsUnique(bs[0], rest);
      }
    }
  }

  /** Removal keeps the surviving entries in their original order: it acts
      on each part of a split list separately. */
  lemma {:induction false} RemoveKeepsOrder(a: seq<Bookmark>, b: seq<Bookmark>, id: string)
    ensures RemoveBookmark(a + b, id) == RemoveBookmark(a, id) + RemoveBookmark(b, id)
    decreases |a|
  {
    if |a| == 0 {
      assert a + b == b;
    } else {
      assert (a + b)[0] == a[0];
      assert (a + b)[1..] == a[1..] + b;
      RemoveKeepsOrder(a[1..], b, id);
    }
  }

  /** `isBookmarked`: some entry carries the derived id. */
  function IsBookmarked(bs: seq<Bookmark>, topic: string, title: string): (r: bool)
    ensures r <==> exists i :: 0 <= i < |bs| && bs[i].id == BookmarkId(topic, title)
  {
    HasId(bs, BookmarkId(topic, title))
  }

  /** `toggleBookmark`: remove the snippet's entry if present, else add it. */
  function ToggleBookmark(bs: seq<Bookmark>, sn: SnippetInfo, savedAt: string): (r: seq<Bookmark>)
    ensures IsBookmarked(r, sn.topic, sn.title) == !IsBookmarked(bs, sn.topic, sn.title)
    ensures forall b: Bookmark :: b.id != BookmarkId(sn.topic, sn.title) ==> (b in r <==> b in bs)
    ensures UniqueIds(bs) ==> UniqueIds(r)
    ensures IsBookmarked(bs, sn.topic, sn.title) ==>
              r == RemoveBookmark(bs, BookmarkId(sn.topic, sn.title))
    ensures !IsBookmarked(bs, sn.topic, sn.title) ==>
              && |r| == |bs| + 1
              && r[0] == Bookmark(BookmarkId(sn.topic, sn.title), sn.topic, sn.title,
                                  sn.image, sn.content, sn.example, savedAt)
              && r[1..] == bs
  {
    var id := BookmarkId(sn.topic, sn.title);
    if HasId(bs, id) then
      assert UniqueIds(bs) ==> UniqueIds(RemoveBookmark(bs, id)) by {
        if UniqueIds(bs) {
          RemoveKeepsUnique(bs, id);
        }
      }
      RemoveBookmark(bs, id)
    else
      var r := AddBookmark(bs, sn, savedAt);
      assert forall b :: b in r <==> b == r[0] || b in bs by {
        assert r == [r[0]] + bs;
      }
      r
  }

  /** Toggling a snippet that is not saved, and then toggling it again, gives
      back the original list. */
  lemma ToggleTwiceRestores(bs: seq<Bookmark>, sn: SnippetInfo, t1: string, t2: string)
    requires !IsBookmarked(bs, sn.topic, sn.title)
    ensures ToggleBookmark(ToggleBookmark(bs, sn, t1), sn, t2) == bs
  {
    var id := BookmarkId(sn.topic, sn.title);
    var added := ToggleBookmark(bs, sn, t1);
    assert added == [added[0]] + bs;
    assert added[0].id == id;
    RemoveKeepsOrder([added[0]], bs, id);
    assert RemoveBookmark([added[0]], id) == [] by {
      assert [added[0]][1..] == [];
    }
  }

  /** What the storage read yields: nothing, text that does not parse, or a
      parsed list. */
  datatype Stored = Absent | Unparseable | Parsed(list: seq<Bookmark>)

  /** The guarded load: the list starts empty and is replaced only by a
      successfully parsed value. */
  function LoadBookmarks(stored: Stored): (r: seq<Bookmark>)
    ensures stored.Parsed? ==> r == stored.list
    ensures !stored.Parsed? ==> r == []
  {
    match stored
    case Parsed(list) => list
    case _ => []
  }

  /** The operations the hook exposes. */
  datatype BookmarkOp =
    | Add(snippet: SnippetInfo, savedAt: string)
    | Remove(id: string)
    | Toggle(snippet: SnippetInfo, savedAt: string)

  function ApplyOp(bs: seq<Bookmark>, op: BookmarkOp): seq<Bookmark> {
    match op
    case Add(sn, t) => AddBookmark(bs, sn, t)
    case Remove(id) => RemoveBookmark(bs, id)
    case Toggle(sn, t) => ToggleBookmark(bs, sn, t)
  }

  function ApplyOps(bs: seq<Bookmark>, ops: seq<BookmarkOp>): seq<Bookmark>
    decreases |ops|
  {
    if |ops| == 0 then bs else ApplyOps(ApplyOp(bs, ops[0]), ops[1..])
  }

  /** Ids stay pairwise distinct across any sequence of operations. */
  lemma {:induction false} OpsKeepIdsUnique(bs: seq<Bookmark>, ops: seq<BookmarkOp>)
    requires UniqueIds(bs)
    ensures UniqueIds(ApplyOps(bs, ops))
    decreases |ops|
  {
    if |ops| > 0 {
      if ops[0].Remove? {
        RemoveKeepsUnique(bs, ops[0].id);
      }
      OpsKeepIdsUnique(ApplyOp(bs, ops[0]), ops[1..]);
    }
  }

  // ---------------------------------------------------------------------
  // The list together with the storage key.
  // ---------------------------------------------------------------------

  /** The hook's list and what the storage key currently holds. */
  datatype Session = Session(list: seq<Bookmark>, stored: Stored)

  /** Reading the storage key back gives the list the hook holds. */
  predicate Persisted(s: Session) {
    LoadBookmarks(s.stored) == s.list
  }

  /** Mounting: the list starts empty and the load effect replaces it. */
  function Open(stored: Stored): (s: Session)
    ensures s.stored == stored
    ensures Persisted(s)
    ensures stored.Parsed? ==> s.list == stored.list
    ensures !stored.Parsed? ==> s.list == []
  {
    Session(LoadBookmarks(stored), stored)
  }

  /** Every operation goes through `saveBookmarks`, except an `addBookmark`
      whose id is already present, which returns before saving. */
  predicate Saves(bs: seq<Bookmark>, op: BookmarkOp) {
    !(op.Add? && HasId(bs, BookmarkId(op.snippet.topic, op.snippet.title)))
  }

  datatype SessionEvent = Do(op: BookmarkOp) | Reopen

  function Step(s: Session, e: SessionEvent): (r: Session)
    ensures e.Do? && Saves(s.list, e.op) ==> r.stored == Parsed(r.list)
    ensures e.Do? && !Saves(s.list, e.op) ==> r == s
    ensures e.Reopen? ==> r == Open(s.stored)
  {
    match e
    case Do(op) =>
      var list := ApplyOp(s.list, op);
      Session(list, if Saves(s.list, op) then Parsed(list) else s.stored)
    case Reopen => Open(s.stored)
  }

  function Replay(s: Session, es: seq<SessionEvent>): Session
    decreases |es|
  {
    if |es| == 0 then s else Replay(Step(s, es[0]), es[1..])
  }

  /** After any mix of operations and reloads the stored value reads back as
      the list on screen, so a reload never changes the list; and ids stay
      pairwise distinct. */
  lemma {:induction false} ReplayPersists(s: Session, es: seq<SessionEvent>)
    requires Persisted(s) && UniqueIds(s.list)
    ensures Persisted(Replay(s, es))
    ensures UniqueIds(Replay(s, es).list)
    ensures Step(Replay(s, es), Reopen).list == Replay(s, es).list
    decreases |es|
  {
    if |es| > 0 {
      var s' := Step(s, es[0]);
      if es[0].Do? && es[0].op.Remove? {
        RemoveKeepsUnique(s.list, es[0].op.id);
      }
      ReplayPersists(s', es[1..]);
    }
  }

  /** Starting from whatever the key holds, provided a parsed list has
      distinct ids, reloading at any point shows the list as it was. */
  lemma OpenThenReplay(stored: Stored, es: seq<SessionEvent>)
    requires stored.Parsed? ==> UniqueIds(stored.list)
    ensures var s := Replay(Open(stored), es);
            Persisted(s) && UniqueIds(s.list) && Step(s, Reopen).list == s.list
  {
    ReplayPersists(Open(stored), es);
  }
}
