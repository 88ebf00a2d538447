/** The Gmail search query a deletion run uses, and the query that finds the
    same messages in the trash afterwards (content.js:24-36 and 302-303). */
module Query {
  import opened Text

  /** The run configuration the popup sends (content.js:20). maxPages comes from
      `parseInt(...) || 0`, so it may be negative. */
  datatype Config = Config(
    startDate: string,
    endDate: string,
    category: string,
    labelName: string,
    unreadOnly: bool,
    maxPages: int)

  // ---------------------------------------------------------------------------
  // The search query

  /** A one-term list when the term is present, else the empty list. */
  function Optional(present: bool, term: string): seq<string> {
    if present then [term] else []
  }

  /** The search terms in the order the query lists them; an optional term is
      present exactly when its field is non-empty (or true). */
  function QueryParts(cfg: Config): seq<string> {
    Optional(cfg.startDate != "", "after:" + cfg.startDate)
    + ["before:" + cfg.endDate]
    + Optional(cfg.unreadOnly, "is:unread")
    + Optional(cfg.category != "", "category:" + cfg.category)
    + Optional(cfg.labelName != "", "label:" + cfg.labelName)
  }

  /** The words of a list separated by single spaces. */
  function JoinWithSpaces(parts: seq<string>): string {
    if parts == [] then ""
    else if |parts| == 1 then parts[0]
    else JoinWithSpaces(parts[..|parts| - 1]) + " " + parts[|parts| - 1]
  }

  /** The query a run searches for: its terms separated by single spaces, which
      spells out as `[after:S ]before:E[ is:unread][ category:C][ label:L]`. */
  function SearchQuery(cfg: Config): (q: string)
    ensures q ==
      (if cfg.startDate != "" then "after:" + cfg.startDate + " " else "")
      + "before:" + cfg.endDate
      + (if cfg.unreadOnly then " is:unread" else "")
      + (if cfg.category != "" then " category:" + cfg.category else "")
      + (if cfg.labelName != "" then " label:" + cfg.labelName else "")
  {
    JoinedPartsShape(cfg);
    JoinWithSpaces(QueryParts(cfg))
  }

  lemma JoinSnoc(parts: seq<string>, w: string)
    requires parts != []
    ensures JoinWithSpaces(parts + [w]) == JoinWithSpaces(parts) + " " + w
  {
    assert (parts + [w])[..|parts|] == parts;
  }

  lemma {:induction false} JoinCons(w: string, parts: seq<string>)
    requires parts != []
    ensures JoinWithSpaces([w] + parts) == w + " " + JoinWithSpaces(parts)
    decreases |parts|
  {
    var n := |parts|;
    if n == 1 {
      assert ([w] + parts)[..1] == [w];
    } else {
      var init := parts[..n - 1];
      assert ([w] + parts)[..n] == [w] + init;
      JoinCons(w, init);
    }
  }

  lemma AppendTerm(q: string, value: string)
    ensures q + " is:unread" == q + " " + "is:unread"
    ensures q + " category:" + value == q + " " + ("category:" + value)
    ensures q + " label:" + value == q + " " + ("label:" + value)
  {
  }

  /** The query built the way the content script builds it: start from the
      mandatory `before:` term, put `after:` in front, append the others. */
  method BuildSearchQuery(cfg: Config) returns (searchQuery: string)
    ensures searchQuery == SearchQuery(cfg)
  {
    ghost var p1 := Optional(cfg.startDate != "", "after:" + cfg.startDate) + ["before:" + cfg.endDate];
    ghost var p2 := p1 + Optional(cfg.unreadOnly, "is:unread");
    ghost var p3 := p2 + Optional(cfg.category != "", "category:" + cfg.category);
    ghost var p4 := p3 + Optional(cfg.labelName != "", "label:" + cfg.labelName);
    assert p4 == QueryParts(cfg);
    searchQuery := "before:" + cfg.endDate;
    if cfg.startDate != "" {
      assert p1[..1] == ["after:" + cfg.startDate];
      searchQuery := "after:" + cfg.startDate + " " + searchQuery;
    }
    assert searchQuery == JoinWithSpaces(p1);
    if cfg.unreadOnly {
      JoinSnoc(p1, "is:unread");
      AppendTerm(searchQuery, "");
      searchQuery := searchQuery + " is:unread";
    }
    assert searchQuery == JoinWithSpaces(p2);
    if cfg.category != "" {
      JoinSnoc(p2, "category:" + cfg.category);
      AppendTerm(searchQuery, cfg.category);
      searchQuery := searchQuery + " category:" + cfg.category;
      assert p3 == p2 + ["category:" + cfg.category];
    } else {
      assert p3 == p2;
    }
    assert searchQuery == JoinWithSpaces(p3);
    if cfg.labelName != "" {
      JoinSnoc(p3, "label:" + cfg.labelName);
      AppendTerm(searchQuery, cfg.labelName);
      searchQuery := searchQuery + " label:" + cfg.labelName;
      assert p4 == p3 + ["label:" + cfg.labelName];
    } else {
      assert p4 == p3;
    }
    assert searchQuery == JoinWithSpaces(p4);
  }

  /** The query spelled out: `[after:S ]before:E[ is:unread][ category:C][ label:L]`. */
  lemma {:induction false} JoinOptional(p: seq<string>, q: string, present: bool, key: string, value: string)
    requires p != [] && JoinWithSpaces(p) == q
    ensures JoinWithSpaces(p + Optional(present, key + value)) == q + (if present then " " + key + value else "")
  {
    if present {
      JoinSnoc(p, key + value);
      assert q + " " + (key + value) == q + " " + key + value;
    } else {
      assert p + Optional(present, key + value) == p;
    }
  }

  /** The joined terms, spelled out. */
  lemma JoinedPartsShape(cfg: Config)
    ensures JoinWithSpaces(QueryParts(cfg)) ==
      (if cfg.startDate != "" then "after:" + cfg.startDate + " " else "")
      + "before:" + cfg.endDate
      + (if cfg.unreadOnly then " is:unread" else "")
      + (if cfg.category != "" then " category:" + cfg.category else "")
      + (if cfg.labelName != "" then " label:" + cfg.labelName else "")
  {
    var p1 := Optional(cfg.startDate != "", "after:" + cfg.startDate) + ["before:" + cfg.endDate];
    var s1 := (if cfg.startDate != "" then "after:" + cfg.startDate + " " else "") + "before:" + cfg.endDate;
    if cfg.startDate != "" {
      assert p1[..1] == ["after:" + cfg.startDate];
    }
    assert JoinWithSpaces(p1) == s1;
    assert "is:unread" + "" == "is:unread";
    assert " " + "is:unread" + "" == " is:unread";
    assert " " + "category:" == " category:";
    assert " " + "label:" == " label:";
    JoinOptional(p1, s1, cfg.unreadOnly, "is:unread", "");
    var p2 := p1 + Optional(cfg.unreadOnly, "is:unread");
    var s2 := s1 + (if cfg.unreadOnly then " is:unread" else "");
    JoinOptional(p2, s2, cfg.category != "", "category:", cfg.category);
    var p3 := p2 + Optional(cfg.category != "", "category:" + cfg.category);
    var s3 := s2 + (if cfg.category != "" then " category:" + cfg.category else "");
    JoinOptional(p3, s3, cfg.labelName != "", "label:", cfg.labelName);
    assert p3 + Optional(cfg.labelName != "", "label:" + cfg.labelName) == QueryParts(cfg);
  }

  /** With no optional field set the query is the `before:` term alone. */
  lemma PlainSearchQuery(cfg: Config)
    requires cfg.startDate == "" && !cfg.unreadOnly && cfg.category == "" && cfg.labelName == ""
    ensures SearchQuery(cfg) == "before:" + cfg.endDate
  {
  }

  // ---------------------------------------------------------------------------
  // Splitting a query back into its terms

  /** `s.split(' ')`: the pieces of s between single space characters. */
  function SplitOnSpace(s: string): (r: seq<string>)
    ensures |r| >= 1
    decreases |s|
  {
    if s == [] then [""]
    else
      var rest := SplitOnSpace(s[1..]);
      if s[0] == ' ' then [""] + rest else [[s[0]] + rest[0]] + rest[1..]
  }

  lemma {:induction false} SplitWord(w: string, tail: string)
    requires ' ' !in w
    ensures SplitOnSpace(w + " " + tail) == [w] + SplitOnSpace(tail)
    ensures SplitOnSpace(w) == [w]
    decreases |w|
  {
    if w == [] {
      assert w + " " + tail == [' '] + tail;
      assert (w + " " + tail)[1..] == tail;
    } else {
      assert (w + " " + tail)[1..] == w[1..] + " " + tail;
      assert (w + " " + tail)[0] == w[0];
      SplitWord(w[1..], tail);
      assert [w[0]] + w[1..] == w;
    }
  }

  /** Splitting undoes joining when no word contains a space. */
  lemma {:induction false} SplitJoin(parts: seq<string>)
    requires parts != []
    requires forall i | 0 <= i < |parts| :: ' ' !in parts[i]
    ensures SplitOnSpace(JoinWithSpaces(parts)) == parts
    decreases |parts|
  {
    if |parts| == 1 {
      SplitWord(parts[0], "");
    } else {
      assert parts == [parts[0]] + parts[1..];
      JoinCons(parts[0], parts[1..]);
      SplitWord(parts[0], JoinWithSpaces(parts[1..]));
      SplitJoin(parts[1..]);
    }
  }

  /** When no field contains a space, the words of the query are exactly its terms. */
  lemma SearchQueryWords(cfg: Config)
    requires ' ' !in cfg.startDate && ' ' !in cfg.endDate
    requires ' ' !in cfg.category && ' ' !in cfg.labelName
    ensures SplitOnSpace(SearchQuery(cfg)) == QueryParts(cfg)
  {
    var parts := QueryParts(cfg);
    forall i | 0 <= i < |parts| ensures ' ' !in parts[i] {
      assert ' ' !in "after:" + cfg.startDate;
      assert ' ' !in "before:" + cfg.endDate;
      assert ' ' !in "category:" + cfg.category;
      assert ' ' !in "label:" + cfg.labelName;
    }
    SplitJoin(parts);
  }

  // ---------------------------------------------------------------------------
  // The trash query

  const CategoryKey: string := "category:"

  /** A match of /category:\S+/ begins at the front of s. */
  predicate StartsWithToken(s: string) {
    |s| > |CategoryKey| && s[..|CategoryKey|] == CategoryKey && !IsSpace(s[|CategoryKey|])
  }

  /** No match of /category:\S+/ begins anywhere in s. */
  predicate NoToken(s: string) {
    forall i | 0 <= i < |s| :: !StartsWithToken(s[i..])
  }

  /** Length of the run of non-whitespace at the front of s (what \S+ consumes). */
  function NonSpaceRun(s: string): (n: nat)
    ensures n <= |s|
    ensures forall i | 0 <= i < n :: !IsSpace(s[i])
    ensures n < |s| ==> IsSpace(s[n])
    decreases |s|
  {
    if s == [] || IsSpace(s[0]) then 0 else 1 + NonSpaceRun(s[1..])
  }

  /** `s.replace(/category:\S+/g, '')`: scanning from the left, every match
      (the key and the whole run of non-whitespace after it) is deleted; the
      scan resumes right after the deleted text. */
  function StripCategories(s: string): (r: string)
    ensures |r| <= |s|
    decreases |s|
  {
    if s == [] then ""
    else if StartsWithToken(s) then
      StripCategories(s[|CategoryKey| + NonSpaceRun(s[|CategoryKey|..])..])
    else [s[0]] + StripCategories(s[1..])
  }

  /** The query for the trash: category terms removed, trimmed, `in:trash `
      put in front, trimmed again (content.js:302-303). */
  function TrashQuery(searchQuery: string): (r: string)
    ensures r == TrashForm(Trim(StripCategories(searchQuery)))
    ensures |r| >= 8 && r[..8] == "in:trash"
    ensures NoToken(r)
  {
    var t := Trim(StripCategories(searchQuery));
    StripLeavesNoToken(searchQuery);
    TrimKeepsNoToken(StripCategories(searchQuery));
    TrimTrashForm(t);
    TrashFormPrefix(t);
    if t != [] then
      TrashPrefixKeepsNoToken(t);
      Trim("in:trash " + t)
    else
      ShortHasNoToken(TrashForm(t));
      Trim("in:trash " + t)
  }

  lemma KeyHasNoSpace()
    ensures forall j | 0 <= j < |CategoryKey| :: !IsSpace(CategoryKey[j])
  {
    forall j | 0 <= j < |CategoryKey| ensures !IsSpace(CategoryKey[j]) {
      assert CategoryKey[j] in "category:";
    }
  }

  /** Every character of a match of /category:\S+/ at the front is non-space. */
  lemma TokenIsNonSpace(s: string)
    requires StartsWithToken(s)
    ensures forall j | 0 <= j <= |CategoryKey| :: !IsSpace(s[j])
  {
    KeyHasNoSpace();
    forall j | 0 <= j < |CategoryKey| ensures !IsSpace(s[j]) {
      assert s[j] == s[..|CategoryKey|][j];
    }
  }

  /** Whether a match starts at the front depends on the first ten characters only. */
  lemma TokenByPrefix(s: string, t: string)
    requires StartsWithToken(s)
    requires |t| > |CategoryKey| && t[..|CategoryKey| + 1] == s[..|CategoryKey| + 1]
    ensures StartsWithToken(t)
  {
    assert t[..|CategoryKey|] == t[..|CategoryKey| + 1][..|CategoryKey|];
    assert s[..|CategoryKey|] == s[..|CategoryKey| + 1][..|CategoryKey|];
    assert t[|CategoryKey|] == t[..|CategoryKey| + 1][|CategoryKey|];
  }

  /** A suffix of the rewrite that starts with whitespace keeps starting with it. */
  lemma StripKeepsLeadingSpace(s: string)
    requires s != [] && IsSpace(s[0])
    ensures StripCategories(s) != [] && StripCategories(s)[0] == s[0]
  {
    assert s[0] != 'c';
  }

  /** Where the rewrite begins with m non-space characters, those are the first
      m characters of the input: a deletion is always followed by whitespace or
      by the end of the string. */
  lemma {:induction false} StripNonSpacePrefix(s: string, m: nat)
    requires 0 < m <= |StripCategories(s)|
    requires forall j | 0 <= j < m :: !IsSpace(StripCategories(s)[j])
    ensures m <= |s| && StripCategories(s)[..m] == s[..m]
    decreases |s|
  {
    if StartsWithToken(s) {
      var rest := s[|CategoryKey| + NonSpaceRun(s[|CategoryKey|..])..];
      assert rest != [] by { assert StripCategories(s) == StripCategories(rest); }
      assert IsSpace(rest[0]);
      StripKeepsLeadingSpace(rest);
      assert false;
    } else {
      var r := StripCategories(s);
      assert r == [s[0]] + StripCategories(s[1..]);
      if m > 1 {
        forall j | 0 <= j < m - 1 ensures !IsSpace(StripCategories(s[1..])[j]) {
          assert StripCategories(s[1..])[j] == r[j + 1];
        }
        StripNonSpacePrefix(s[1..], m - 1);
        assert r[..m] == [s[0]] + StripCategories(s[1..])[..m - 1];
        assert s[..m] == [s[0]] + s[1..][..m - 1];
      }
    }
  }

  /** After the global replace no match of /category:\S+/ is left, not even one
      formed by the text on either side of a deleted match. */
  lemma {:induction false} StripLeavesNoToken(s: string)
    ensures NoToken(StripCategories(s))
    decreases |s|
  {
    if s == [] {
    } else if StartsWithToken(s) {
      StripLeavesNoToken(s[|CategoryKey| + NonSpaceRun(s[|CategoryKey|..])..]);
    } else {
      var tail := StripCategories(s[1..]);
      var r := [s[0]] + tail;
      StripLeavesNoToken(s[1..]);
      forall i | 0 <= i < |r| ensures !StartsWithToken(r[i..]) {
        if i > 0 {
          assert r[i..] == tail[i - 1..];
        } else if StartsWithToken(r) {
          TokenIsNonSpace(r);
          forall j | 0 <= j < |CategoryKey| ensures !IsSpace(tail[j]) {
            assert tail[j] == r[j + 1];
          }
          StripNonSpacePrefix(s[1..], |CategoryKey|);
          assert r[..|CategoryKey| + 1] == [s[0]] + tail[..|CategoryKey|];
          assert s[..|CategoryKey| + 1] == [s[0]] + s[1..][..|CategoryKey|];
          TokenByPrefix(r, s);
          assert false;
        }
      }
    }
  }

  /** The whitespace characters of `s`, in order. */
  function Spaces(s: string): string {
    if s == [] then ""
    else (if IsSpace(s[0]) then [s[0]] else "") + Spaces(s[1..])
  }

  /** Dropping a prefix without whitespace keeps the whitespace. */
  lemma {:induction false} SkipNonSpace(s: string, n: nat)
    requires n <= |s|
    requires forall i | 0 <= i < n :: !IsSpace(s[i])
    ensures Spaces(s[n..]) == Spaces(s)
  {
    if n > 0 {
      SkipNonSpace(s[1..], n - 1);
      assert s[1..][n - 1..] == s[n..];
    }
  }

  /** The rewrite deletes only non-whitespace characters: every whitespace
      character of the query survives, in order, so the words around a
      deleted match stay separated. */
  lemma {:induction false} StripKeepsSpaces(s: string)
    ensures Spaces(StripCategories(s)) == Spaces(s)
    decreases |s|
  {
    if s == [] {
    } else if StartsWithToken(s) {
      var n := NonSpaceRun(s[|CategoryKey|..]);
      var m := |CategoryKey| + n;
      forall i | 0 <= i < m ensures !IsSpace(s[i]) {
        if i < |CategoryKey| {
          KeyHasNoSpace();
          assert s[i] == s[..|CategoryKey|][i];
        } else {
          assert s[i] == s[|CategoryKey|..][i - |CategoryKey|];
        }
      }
      SkipNonSpace(s, m);
      StripKeepsSpaces(s[m..]);
    } else {
      StripKeepsSpaces(s[1..]);
      var r := [s[0]] + StripCategories(s[1..]);
      assert r[1..] == StripCategories(s[1..]);
    }
  }

  /** The rewrite never lengthens the query, and it leaves the query unchanged
      exactly when the query holds no match. */
  lemma {:induction false} StripUnchangedIff(s: string)
    ensures |StripCategories(s)| <= |s|
    ensures NoToken(s) ==> StripCategories(s) == s
    ensures !NoToken(s) ==> |StripCategories(s)| < |s|
    decreases |s|
  {
    if s == [] {
    } else if StartsWithToken(s) {
      StripUnchangedIff(s[|CategoryKey| + NonSpaceRun(s[|CategoryKey|..])..]);
      assert !NoToken(s) by { assert s[0..] == s; }
    } else {
      StripUnchangedIff(s[1..]);
      if NoToken(s) {
        forall i | 0 <= i < |s| - 1 ensures !StartsWithToken(s[1..][i..]) {
          assert s[1..][i..] == s[i + 1..];
        }
        assert [s[0]] + s[1..] == s;
      }
      if !NoToken(s) {
        var i :| 0 <= i < |s| && StartsWithToken(s[i..]);
        assert i > 0 by { assert s[0..] == s; }
        assert s[1..][i - 1..] == s[i..];
      }
    }
  }

  /** The first match decides the rewrite: the text before it is kept as it
      is, the match (the key and its whole non-whitespace run) is deleted, and
      the scan goes on after it. With `StripUnchangedIff`'s no-match case this
      fixes the result for every input. */
  lemma StripFirstMatch(s: string, i: nat)
    requires i < |s| && StartsWithToken(s[i..])
    requires forall j | 0 <= j < i :: !StartsWithToken(s[j..])
    ensures StripCategories(s) ==
      s[..i] + StripCategories(s[i..][|CategoryKey| + NonSpaceRun(s[i..][|CategoryKey|..])..])
  {
    var u := s[i..];
    var rest := u[|CategoryKey| + NonSpaceRun(u[|CategoryKey|..])..];
    assert StripCategories(u) == StripCategories(rest) by {
      StripMatchStep(u);
    }
    assert StripCategories(s) == s[..i] + StripCategories(u) by {
      StripClearPrefix(s, i);
    }
  }

  /** One step of the scan at a match: the match is deleted. */
  lemma StripMatchStep(u: string)
    requires StartsWithToken(u)
    ensures StripCategories(u) == StripCategories(u[|CategoryKey| + NonSpaceRun(u[|CategoryKey|..])..])
  {
  }

  /** One step of the scan elsewhere: the first character is kept. */
  lemma StripPastChar(u: string)
    requires u != [] && !StartsWithToken(u)
    ensures StripCategories(u) == [u[0]] + StripCategories(u[1..])
  {
  }

  lemma TakeAfterFirst(s: string, n: nat)
    requires 0 < n <= |s|
    ensures s[..n] == [s[0]] + s[1..][..n - 1]
  {
  }

  lemma AppendAssoc(x: string, y: string, z: string)
    ensures (x + y) + z == x + (y + z)
  {
  }

  lemma DropDrop(s: string, i: nat, k: nat)
    requires i + k <= |s|
    ensures s[i..][k..] == s[i + k..]
  {
  }

  /** Text in front of the first match is kept as it is. */
  lemma {:induction false} StripClearPrefix(s: string, n: nat)
    requires n <= |s|
    requires forall j | 0 <= j < n :: !StartsWithToken(s[j..])
    ensures StripCategories(s) == s[..n] + StripCategories(s[n..])
  {
    if n == 0 {
      assert s[..0] + s[0..] == s[0..] == s;
    } else {
      var t := s[1..];
      assert StripCategories(s) == [s[0]] + StripCategories(t) by {
        assert s[0..] == s;
        StripPastChar(s);
      }
      assert StripCategories(t) == t[..n - 1] + StripCategories(s[n..]) by {
        forall j | 0 <= j < n - 1 ensures !StartsWithToken(t[j..]) {
          DropDrop(s, 1, j);
        }
        StripClearPrefix(t, n - 1);
        DropDrop(s, 1, n - 1);
      }
      TakeAfterFirst(s, n);
      AppendAssoc([s[0]], t[..n - 1], StripCategories(s[n..]));
    }
  }

  /** The non-whitespace run at the front of `t` is exactly its first n characters. */
  lemma {:induction false} NonSpaceRunIs(t: string, n: nat)
    requires n <= |t|
    requires forall k | 0 <= k < n :: !IsSpace(t[k])
    requires n == |t| || IsSpace(t[n])
    ensures NonSpaceRun(t) == n
  {
    if n > 0 {
      NonSpaceRunIs(t[1..], n - 1);
    }
  }

  /** Text without the letter `c` in front of a piece without matches
      creates none: every match begins with `c`. */
  lemma NoKeyAfter(p: string, d: string)
    requires forall k | 0 <= k < |p| :: p[k] != 'c'
    requires NoToken(d)
    ensures NoToken(p + d)
  {
    var s := p + d;
    forall i | 0 <= i < |s| ensures !StartsWithToken(s[i..]) {
      if i < |p| {
        assert s[i..][0] == p[i];
      } else {
        assert s[i..] == d[i - |p|..];
      }
    }
  }

  /** No match begins in a piece without matches, or at the whitespace after it. */
  lemma NoMatchBefore(a: string, m: string)
    requires NoToken(a) && m != [] && IsSpace(m[0])
    ensures forall j | 0 <= j <= |a| :: !StartsWithToken((a + m)[j..])
  {
    var s := a + m;
    forall j | 0 <= j <= |a| ensures !StartsWithToken(s[j..]) {
      if StartsWithToken(s[j..]) {
        TokenIsNonSpace(s[j..]);
        assert s[j..][|a| - j] == m[0];
        assert s[j..][..|CategoryKey| + 1] == a[j..][..|CategoryKey| + 1];
        TokenByPrefix(s[j..], a[j..]);
        assert false;
      }
    }
  }

  /** `category:`, a non-empty run without whitespace, then whitespace or the
      end: the match takes exactly the key and the run. */
  lemma TokenFront(c: string, b: string)
    requires c != [] && forall k | 0 <= k < |c| :: !IsSpace(c[k])
    requires b == [] || IsSpace(b[0])
    ensures var t := CategoryKey + c + b;
      StartsWithToken(t) && t[|CategoryKey| + NonSpaceRun(t[|CategoryKey|..])..] == b
  {
    var t := CategoryKey + c + b;
    assert t[..|CategoryKey|] == CategoryKey;
    assert t[|CategoryKey|] == c[0];
    assert t[|CategoryKey|..] == c + b;
    NonSpaceRunIs(c + b, |c|);
    assert (c + b)[|c|..] == b;
  }

  /** A `category:` term between two pieces without matches is deleted along
      with nothing else: the space in front of it stays, and so does the text
      after it, which begins with whitespace or is empty. */
  lemma StripMiddleTerm(a: string, c: string, b: string)
    requires NoToken(a) && NoToken(b)
    requires c != [] && forall k | 0 <= k < |c| :: !IsSpace(c[k])
    requires b == [] || IsSpace(b[0])
    ensures StripCategories(a + " " + CategoryKey + c + b) == a + " " + b
  {
    var t := CategoryKey + c + b;
    var p := a + " ";
    TokenFront(c, b);
    StripUnchangedIff(b);
    assert StripCategories(t) == b;
    MiddleTermSplit(a, c, b);
    NoMatchBefore(a, " " + t);
    StripClearPrefix(p + t, |p|);
  }

  lemma MiddleTermSplit(a: string, c: string, b: string)
    ensures var p, t := a + " ", CategoryKey + c + b;
      && a + " " + CategoryKey + c + b == p + t == a + (" " + t)
      && (p + t)[..|p|] == p && (p + t)[|p|..] == t
  {
  }

  /** A match inside a slice is a match in the whole string. */
  lemma TokenInSlice(s: string, a: nat, b: nat, i: nat)
    requires a <= b <= |s| && i < b - a
    requires StartsWithToken(s[a..b][i..])
    ensures StartsWithToken(s[a + i..])
  {
    var u, v := s[a..b][i..], s[a + i..];
    forall j | 0 <= j <= |CategoryKey| ensures u[j] == v[j] {
      assert u[j] == s[a + i + j] == v[j];
    }
    assert u[..|CategoryKey| + 1] == v[..|CategoryKey| + 1];
    TokenByPrefix(u, v);
  }

  /** A slice of a string without matches has none either. */
  lemma SliceKeepsNoToken(s: string, a: nat, b: nat)
    requires a <= b <= |s| && NoToken(s)
    ensures NoToken(s[a..b])
  {
    forall i | 0 <= i < b - a ensures !StartsWithToken(s[a..b][i..]) {
      if StartsWithToken(s[a..b][i..]) {
        TokenInSlice(s, a, b, i);
      }
    }
  }

  /** A match inside the trimmed string would already be a match in the string. */
  lemma TrimKeepsNoToken(s: string)
    requires NoToken(s)
    ensures NoToken(Trim(s))
  {
    var t, a := Trim(s), TrimOffset(s);
    SliceKeepsNoToken(s, a, a + |t|);
  }

  lemma TrimTrashPrefix()
    ensures Trim("in:trash ") == "in:trash"
  {
    var p := "in:trash ";
    assert !IsSpace(p[0]);
    assert TrimStart(p) == p;
    assert IsSpace(p[|p| - 1]);
    assert p[..|p| - 1] == "in:trash";
    var h := "in:trash";
    assert !IsSpace(h[|h| - 1]);
    assert TrimEnd(h) == h;
  }

  /** `in:trash`, then, unless t is empty, a space and t. */
  function TrashForm(t: string): string {
    if t == [] then "in:trash" else "in:trash " + t
  }

  /** The outer trim only removes the space after `in:trash`, and only when
      the trimmed rewritten query is empty. */
  lemma TrimTrashForm(t: string)
    requires t == [] || !IsSpace(t[|t| - 1])
    ensures Trim("in:trash " + t) == TrashForm(t)
  {
    if t == [] {
      assert "in:trash " + t == "in:trash ";
      TrimTrashPrefix();
    } else {
      var p := "in:trash " + t;
      assert p[0] == 'i' && p[|p| - 1] == t[|t| - 1];
      TrimFixedPoint(p);
    }
  }

  lemma TrashFormPrefix(t: string)
    ensures |TrashForm(t)| >= 8 && TrashForm(t)[..8] == "in:trash"
  {
    if t != [] {
      assert ("in:trash " + t)[..8] == "in:trash";
    }
  }

  /** Putting `in:trash ` in front creates no match: a match never spans a space. */
  lemma TrashPrefixKeepsNoToken(t: string)
    requires NoToken(t)
    ensures NoToken("in:trash " + t)
  {
    var r := "in:trash " + t;
    forall i | 0 <= i < |r| ensures !StartsWithToken(r[i..]) {
      if i < 9 {
        assert IsSpace(r[i..][8 - i]) by { assert r[i..][8 - i] == r[8] == ' '; }
        if StartsWithToken(r[i..]) {
          TokenIsNonSpace(r[i..]);
        }
      } else {
        assert r[i..] == t[i - 9..];
      }
    }
  }

  lemma ShortHasNoToken(s: string)
    requires |s| <= |CategoryKey|
    ensures NoToken(s)
  {
  }

  /** A query without any match maps to `in:trash ` and the trimmed query. */
  lemma TrashQueryWithoutCategory(q: string)
    requires NoToken(q)
    ensures TrashQuery(q) == TrashForm(Trim(q))
  {
    StripUnchangedIff(q);
  }

  /** The category term leaves a double space behind: for a query with an
      end date, a category and a label, the trash query is
      `in:trash before:<end>  label:<label>`, two spaces where the category
      term stood. */
  lemma TrashQueryKeepsGap(cfg: Config)
    requires cfg.startDate == "" && !cfg.unreadOnly
    requires cfg.category != [] && forall k | 0 <= k < |cfg.category| :: !IsSpace(cfg.category[k])
    requires cfg.labelName != [] && !IsSpace(cfg.labelName[|cfg.labelName| - 1])
    requires NoToken(cfg.endDate) && NoToken(cfg.labelName)
    ensures TrashQuery(SearchQuery(cfg))
      == "in:trash before:" + cfg.endDate + "  label:" + cfg.labelName
  {
    var d, c, l := cfg.endDate, cfg.category, cfg.labelName;
    var a, b := "before:" + d, " label:" + l;
    GapQuery(cfg);
    NoKeyAfter("before:", d);
    NoKeyAfter(" label:", l);
    StripMiddleTerm(a, c, b);
    var t := a + " " + b;
    GapTrash(d, l);
    TrimFixedPoint(t);
  }

  lemma GapQuery(cfg: Config)
    requires cfg.startDate == "" && !cfg.unreadOnly && cfg.category != [] && cfg.labelName != []
    ensures SearchQuery(cfg)
      == ("before:" + cfg.endDate) + " " + CategoryKey + cfg.category + (" label:" + cfg.labelName)
  {
  }

  lemma GapTrash(d: string, l: string)
    requires l != []
    ensures var t := ("before:" + d) + " " + (" label:" + l);
      && t[0] == 'b' && t[|t| - 1] == l[|l| - 1]
      && "in:trash " + t == "in:trash before:" + d + "  label:" + l
  {
  }
}
