/**
 * Text shown for one message: the whitespace-normalised text content of the
 * node (getMessageText) and the 140-character title derived from it.
 */
module MessageText {

  /** The characters of the JavaScript class `\s`; `String.prototype.trim`
      removes exactly the same set. */
  predicate IsSpace(c: char) {
    c == ' ' || c == '\t' || c == '\n' || c == '\r' || c == '\U{000B}' || c == '\U{000C}'
    || c == '\U{00A0}' || c == '\U{1680}' || ('\U{2000}' <= c <= '\U{200A}')
    || c == '\U{2028}' || c == '\U{2029}' || c == '\U{202F}' || c == '\U{205F}'
    || c == '\U{3000}' || c == '\U{FEFF}'
  }

  /** Removes the maximal leading run of whitespace. */
  function DropSpaces(s: string): (r: string)
    ensures |r| <= |s| && r == s[|s| - |r|..]
    ensures r == [] || !IsSpace(r[0])
    ensures forall i :: 0 <= i < |s| - |r| ==> IsSpace(s[i])
    ensures s != [] && IsSpace(s[0]) ==> |r| < |s|
  {
    if s != [] && IsSpace(s[0]) then DropSpaces(s[1..]) else s
  }

  /** Removes the maximal trailing run of whitespace. */
  function DropTrailingSpaces(s: string): (r: string)
    ensures |r| <= |s| && r == s[..|r|]
    ensures r == [] || !IsSpace(r[|r| - 1])
    ensures forall i :: |r| <= i < |s| ==> IsSpace(s[i])
  {
    if s != [] && IsSpace(s[|s| - 1]) then DropTrailingSpaces(s[..|s| - 1]) else s
  }

  /** `s.replace(/\s+/g, " ")`: every maximal whitespace run becomes a single space. */
  function CollapseRuns(s: string): (r: string)
    ensures r == [] <==> s == []
    ensures r != [] ==> (IsSpace(r[0]) <==> IsSpace(s[0]))
    ensures forall i :: 0 <= i < |r| && IsSpace(r[i]) ==> r[i] == ' '
    ensures forall i :: 0 < i < |r| ==> !(IsSpace(r[i - 1]) && IsSpace(r[i]))
    decreases |s|
  {
    if s == [] then []
    else if IsSpace(s[0]) then
      var rest := CollapseRuns(DropSpaces(s));
      assert forall i :: 0 < i < |rest| + 1 ==> (" " + rest)[i] == rest[i - 1];
      " " + rest
    else
      var rest := CollapseRuns(s[1..]);
      assert forall i :: 0 < i < |rest| + 1 ==> ([s[0]] + rest)[i] == rest[i - 1];
      [s[0]] + rest
  }

  /** The last whitespace run is collapsed too: the result ends in whitespace
      exactly when the input does. */
  lemma {:induction false} CollapseLast(s: string)
    requires s != []
    ensures var r := CollapseRuns(s);
      r != [] && (IsSpace(r[|r| - 1]) <==> IsSpace(s[|s| - 1]))
    decreases |s|
  {
    if IsSpace(s[0]) {
      var d := DropSpaces(s);
      if d != [] {
        CollapseLast(d);
        assert d[|d| - 1] == s[|s| - 1];
      }
    } else if |s| > 1 {
      CollapseLast(s[1..]);
    }
  }

  /** `String.prototype.trim`. */
  function Trim(s: string): (r: string)
    ensures r == [] || (!IsSpace(r[0]) && !IsSpace(r[|r| - 1]))
    ensures Words(r) == Words(s)
  {
    var d := DropSpaces(s);
    WordsDropSpaces(s);
    WordsDropTrailing(d);
    var r := DropTrailingSpaces(d);
    assert r != [] ==> r[0] == d[0];
    r
  }

  /** No whitespace at either end, whitespace only as single ' ' characters. */
  predicate Normalized(s: string) {
    && (s == [] || (!IsSpace(s[0]) && !IsSpace(s[|s| - 1])))
    && SingleSpaced(s)
  }

  /** Whitespace only as single ' ' characters. */
  predicate SingleSpaced(s: string) {
    && (forall i :: 0 <= i < |s| && IsSpace(s[i]) ==> s[i] == ' ')
    && (forall i :: 0 < i < |s| ==> !(IsSpace(s[i - 1]) && IsSpace(s[i])))
  }

  lemma SliceSingleSpaced(s: string, lo: nat, hi: nat)
    requires lo <= hi <= |s| && SingleSpaced(s)
    ensures SingleSpaced(s[lo..hi])
  {
    var t := s[lo..hi];
    forall i | 0 < i < |t| ensures !(IsSpace(t[i - 1]) && IsSpace(t[i])) {
      assert t[i - 1] == s[lo + i - 1] && t[i] == s[lo + i];
    }
  }

  /** Trim yields a slice of its input with no whitespace at either end. */
  lemma TrimSlice(s: string) returns (k: nat)
    ensures k + |Trim(s)| <= |s| && Trim(s) == s[k..k + |Trim(s)|]
  {
    var d := DropSpaces(s);
    k := |s| - |d|;
    var t := DropTrailingSpaces(d);
    assert t == d[..|t|] && d == s[k..];
  }

  /** Trimming a single-spaced string yields a normalised one. */
  lemma TrimNormalizes(s: string)
    requires SingleSpaced(s)
    ensures Normalized(Trim(s))
  {
    var k := TrimSlice(s);
    SliceSingleSpaced(s, k, k + |Trim(s)|);
  }

  /** getMessageText: the text content with whitespace runs collapsed, then trimmed. */
  function GetMessageText(content: string): (r: string)
    ensures Normalized(r)
  {
    TrimNormalizes(CollapseRuns(content));
    Trim(CollapseRuns(content))
  }

  /** The characters of `s` that are not whitespace, in order. */
  function NonSpace(s: string): string
  {
    if s == [] then [] else (if IsSpace(s[0]) then [] else [s[0]]) + NonSpace(s[1..])
  }

  lemma {:induction false} NonSpaceConcat(a: string, b: string)
    ensures NonSpace(a + b) == NonSpace(a) + NonSpace(b)
  {
    if a != [] {
      var h := if IsSpace(a[0]) then [] else [a[0]];
      assert (a + b)[0] == a[0];
      assert (a + b)[1..] == a[1..] + b;
      NonSpaceConcat(a[1..], b);
      calc {
        NonSpace(a + b);
        h + NonSpace(a[1..] + b);
        h + (NonSpace(a[1..]) + NonSpace(b));
        (h + NonSpace(a[1..])) + NonSpace(b);
        NonSpace(a) + NonSpace(b);
      }
    } else {
      assert a + b == b;
    }
  }

  lemma {:induction false} NonSpaceDropSpaces(s: string)
    ensures NonSpace(DropSpaces(s)) == NonSpace(s)
  {
    if s != [] && IsSpace(s[0]) {
      NonSpaceDropSpaces(s[1..]);
    }
  }

  lemma {:induction false} NonSpaceDropTrailing(s: string)
    ensures NonSpace(DropTrailingSpaces(s)) == NonSpace(s)
  {
    if s != [] && IsSpace(s[|s| - 1]) {
      var p := s[..|s| - 1];
      assert s == p + [s[|s| - 1]];
      NonSpaceConcat(p, [s[|s| - 1]]);
      assert NonSpace([s[|s| - 1]]) == [];
      NonSpaceDropTrailing(p);
    }
  }

  lemma {:induction false} NonSpaceCollapse(s: string)
    ensures NonSpace(CollapseRuns(s)) == NonSpace(s)
    decreases |s|
  {
    if s == [] {
    } else if IsSpace(s[0]) {
      NonSpaceCollapse(DropSpaces(s));
      NonSpaceDropSpaces(s);
      NonSpaceConcat(" ", CollapseRuns(DropSpaces(s)));
      assert NonSpace(" ") == [];
    } else {
      NonSpaceCollapse(s[1..]);
      NonSpaceConcat([s[0]], CollapseRuns(s[1..]));
      assert NonSpace([s[0]]) == [s[0]];
    }
  }

  /** Normalisation loses no visible character: only whitespace is dropped or merged. */
  lemma MessageTextKeepsVisibleText(content: string)
    ensures NonSpace(GetMessageText(content)) == NonSpace(content)
  {
    var c := CollapseRuns(content);
    assert GetMessageText(content) == DropTrailingSpaces(DropSpaces(c));
    NonSpaceCollapse(content);
    NonSpaceDropSpaces(c);
    NonSpaceDropTrailing(DropSpaces(c));
  }

  lemma {:induction false} CollapseNormalizedIsIdentity(s: string)
    requires forall i :: 0 <= i < |s| && IsSpace(s[i]) ==> s[i] == ' '
    requires forall i :: 0 < i < |s| ==> !(IsSpace(s[i - 1]) && IsSpace(s[i]))
    ensures CollapseRuns(s) == s
    decreases |s|
  {
    if s == [] {
    } else if IsSpace(s[0]) {
      assert |s| > 1 ==> !IsSpace(s[1]);
      assert DropSpaces(s) == s[1..];
      CollapseNormalizedIsIdentity(s[1..]);
    } else {
      CollapseNormalizedIsIdentity(s[1..]);
    }
  }

  /** getMessageText applied to its own output changes nothing. */
  lemma MessageTextIdempotent(content: string)
    ensures GetMessageText(GetMessageText(content)) == GetMessageText(content)
  {
    var t := GetMessageText(content);
    CollapseNormalizedIsIdentity(t);
    assert GetMessageText(t) == DropTrailingSpaces(DropSpaces(t));
    assert DropSpaces(t) == t;
    assert DropTrailingSpaces(t) == t;
  }

  /** The length of the leading run of non-whitespace characters. */
  function WordLen(s: string): (n: nat)
    ensures n <= |s|
    ensures forall i :: 0 <= i < n ==> !IsSpace(s[i])
    ensures n < |s| ==> IsSpace(s[n])
  {
    if s != [] && !IsSpace(s[0]) then
      assert forall i :: 0 < i <= WordLen(s[1..]) ==> s[1..][i - 1] == s[i];
      1 + WordLen(s[1..])
    else 0
  }

  /** The words of `s`: its maximal runs of non-whitespace characters, in order. */
  function Words(s: string): seq<string>
    decreases |s|
  {
    if s == [] then []
    else if IsSpace(s[0]) then Words(s[1..])
    else
      var n := WordLen(s);
      [s[..n]] + Words(s[n..])
  }

  /** Words joined by single spaces. */
  function Unwords(ws: seq<string>): string {
    if ws == [] then ""
    else if |ws| == 1 then ws[0]
    else ws[0] + " " + Unwords(ws[1..])
  }

  lemma WordLenUnique(s: string, m: nat)
    requires m <= |s| && (m < |s| ==> IsSpace(s[m]))
    requires forall i :: 0 <= i < m ==> !IsSpace(s[i])
    ensures WordLen(s) == m
  {
  }

  lemma {:induction false} WordsAllSpaces(sp: string)
    requires forall i :: 0 <= i < |sp| ==> IsSpace(sp[i])
    ensures Words(sp) == []
  {
    if sp != [] {
      WordsAllSpaces(sp[1..]);
    }
  }

  lemma {:induction false} WordsDropSpaces(s: string)
    ensures Words(DropSpaces(s)) == Words(s)
  {
    if s != [] && IsSpace(s[0]) {
      WordsDropSpaces(s[1..]);
    }
  }

  /** Trailing whitespace adds no word. */
  lemma {:induction false} WordsAppendSpaces(s: string, sp: string)
    requires forall i :: 0 <= i < |sp| ==> IsSpace(sp[i])
    ensures Words(s + sp) == Words(s)
    decreases |s|
  {
    if s == [] {
      assert s + sp == sp;
      WordsAllSpaces(sp);
    } else if IsSpace(s[0]) {
      assert (s + sp)[1..] == s[1..] + sp;
      WordsAppendSpaces(s[1..], sp);
    } else {
      var n := WordLen(s);
      WordLenUnique(s + sp, n);
      assert (s + sp)[..n] == s[..n];
      assert (s + sp)[n..] == s[n..] + sp;
      WordsAppendSpaces(s[n..], sp);
    }
  }

  lemma WordsDropTrailing(s: string)
    ensures Words(DropTrailingSpaces(s)) == Words(s)
  {
    var r := DropTrailingSpaces(s);
    assert s == r + s[|r|..];
    WordsAppendSpaces(r, s[|r|..]);
  }

  /** A visible character in front of `t` starts a new word, or extends the
      first word of `t` when `t` starts with one. */
  lemma WordsCons(c: char, t: string)
    requires !IsSpace(c)
    ensures (t == [] || IsSpace(t[0])) ==> Words([c] + t) == [[c]] + Words(t)
    ensures (t != [] && !IsSpace(t[0])) ==>
      Words(t) != [] && Words([c] + t) == [[c] + Words(t)[0]] + Words(t)[1..]
  {
    var u := [c] + t;
    if t == [] || IsSpace(t[0]) {
      WordLenUnique(u, 1);
      assert u[..1] == [c] && u[1..] == t;
    } else {
      var m := WordLen(t);
      WordLenUnique(u, m + 1);
      assert u[..m + 1] == [c] + t[..m] && u[m + 1..] == t[m..];
    }
  }

  /** Collapsing whitespace runs keeps the words. */
  lemma {:induction false} WordsCollapse(s: string)
    ensures Words(CollapseRuns(s)) == Words(s)
    decreases |s|
  {
    if s == [] {
    } else if IsSpace(s[0]) {
      var rest := CollapseRuns(DropSpaces(s));
      assert (" " + rest)[1..] == rest;
      WordsCollapse(DropSpaces(s));
      WordsDropSpaces(s);
    } else {
      var t := s[1..];
      WordsCollapse(t);
      WordsCons(s[0], t);
      WordsCons(s[0], CollapseRuns(t));
      assert s == [s[0]] + t;
    }
  }

  /** getMessageText keeps the words of the text content. */
  lemma MessageTextKeepsWords(content: string)
    ensures Words(GetMessageText(content)) == Words(content)
  {
    var c := CollapseRuns(content);
    WordsCollapse(content);
    WordsDropSpaces(c);
    WordsDropTrailing(DropSpaces(c));
  }

  /** What follows the first word of a normalised text and its single space is
      itself normalised. */
  lemma NormalizedAfterWord(a: string, n: nat)
    requires Normalized(a) && n < |a| && IsSpace(a[n])
    ensures n + 1 < |a| && Normalized(a[n + 1..])
  {
    var b := a[n + 1..];
    forall i | 0 < i < |b| ensures !(IsSpace(b[i - 1]) && IsSpace(b[i])) {
      assert b[i - 1] == a[n + i] && b[i] == a[n + 1 + i];
    }
  }

  lemma UnwordsCons(w: string, ws: seq<string>)
    requires ws != []
    ensures Unwords([w] + ws) == w + " " + Unwords(ws)
  {
    assert ([w] + ws)[1..] == ws;
  }

  /** A normalised text is its words joined by single spaces. */
  lemma {:induction false} NormalizedIsUnwords(a: string)
    requires Normalized(a)
    ensures Unwords(Words(a)) == a
    decreases |a|
  {
    if a != [] {
      var n := WordLen(a);
      if n < |a| {
        NormalizedAfterWord(a, n);
        var b := a[n + 1..];
        assert a[n..][1..] == b;
        NormalizedIsUnwords(b);
        UnwordsCons(a[..n], Words(b));
        assert a == a[..n] + [a[n]] + b;
      } else {
        assert a[..n] == a && a[n..] == [];
      }
    }
  }

  /** getMessageText is exactly the words of the text content joined by single
      spaces: each whitespace run between two words becomes one space, and
      whitespace at either end disappears. */
  lemma MessageTextIsUnwords(content: string)
    ensures GetMessageText(content) == Unwords(Words(content))
  {
    MessageTextKeepsWords(content);
    NormalizedIsUnwords(GetMessageText(content));
  }

  /** Longest text shown in full; longer texts are cut and marked with "...". */
  const TitleLimit: nat := 140

  /** The title rule of buildListItem and getTextBundle. */
  function Title(text: string): (t: string)
    ensures t != [] && |t| <= TitleLimit + 3
    ensures |text| > TitleLimit ==> |t| == TitleLimit + 3 && t == text[..TitleLimit] + "..."
    ensures 0 < |text| <= TitleLimit ==> t == text
    ensures text == [] ==> t == "(empty)"
  {
    if |text| > TitleLimit then text[..TitleLimit] + "..."
    else if text == [] then "(empty)"
    else text
  }

  /** The title shown for a node whose text content is `content`. */
  function TitleOf(content: string): (t: string)
    ensures t != [] && |t| <= TitleLimit + 3
  {
    Title(GetMessageText(content))
  }
}
