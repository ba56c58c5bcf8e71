/** String helpers of the server: Trim, GetWord, and the searches they are built on
    (string::find, find_first_not_of, find_last_not_of, erase). */
module Text {
  import opened Wrappers

  /** Concatenation regroups freely. */
  lemma AppendAssoc(a: string, b: string, c: string)
    ensures a + (b + c) == (a + b) + c
  {
  }

  /** Every character of s is c (vacuously true of the empty string). */
  predicate AllAre(s: string, c: char) {
    forall k :: 0 <= k < |s| ==> s[k] == c
  }

  /** s neither starts nor ends with a space. */
  predicate NoEdgeSpaces(s: string) {
    s == [] || (s[0] != ' ' && s[|s| - 1] != ' ')
  }

  /** string::find(c): the index of the first c, or None for npos. */
  function IndexOf(s: string, c: char): (r: Option<nat>)
    ensures r.None? <==> c !in s
    ensures r.Some? ==> r.value < |s| && s[r.value] == c && c !in s[..r.value]
  {
    if s == [] then None
    else if s[0] == c then Some(0)
    else match IndexOf(s[1..], c)
      case None => None
      case Some(k) =>
        assert s[1..][..k] == s[1..k + 1];
        Some(k + 1)
  }

  /** string::find_first_not_of(c). */
  function FirstNotOf(s: string, c: char): (r: Option<nat>)
    ensures r.None? <==> AllAre(s, c)
    ensures r.Some? ==> r.value < |s| && s[r.value] != c && AllAre(s[..r.value], c)
  {
    if s == [] then None
    else if s[0] != c then Some(0)
    else match FirstNotOf(s[1..], c)
      case None =>
        assert forall k :: 1 <= k < |s| ==> s[k] == s[1..][k - 1];
        None
      case Some(k) =>
        assert forall j :: 1 <= j < k + 1 ==> s[j] == s[1..][..k][j - 1];
        Some(k + 1)
  }

  /** string::find_last_not_of(c). */
  function LastNotOf(s: string, c: char): (r: Option<nat>)
    ensures r.None? <==> AllAre(s, c)
    ensures r.Some? ==> r.value < |s| && s[r.value] != c && AllAre(s[r.value + 1..], c)
  {
    if s == [] then None
    else if s[|s| - 1] != c then Some(|s| - 1)
    else match LastNotOf(s[..|s| - 1], c)
      case None =>
        assert forall k :: 0 <= k < |s| - 1 ==> s[k] == s[..|s| - 1][k];
        None
      case Some(k) =>
        assert forall j :: k + 1 <= j < |s| - 1 ==> s[j] == s[..|s| - 1][k + 1..][j - k - 1];
        Some(k)
  }

  /** Trim (tinymudserver.cpp): drops the leading and trailing spaces; a string of
      spaces only becomes empty.  Only ' ' counts as a space. */
  function Trim(s: string): (r: string)
    ensures r == [] <==> AllAre(s, ' ')
    ensures NoEdgeSpaces(r)
    ensures exists a, b :: 0 <= a <= b <= |s| && r == s[a..b] && AllAre(s[..a], ' ') && AllAre(s[b..], ' ')
  {
    match FirstNotOf(s, ' ')
    case None =>
      assert s[|s|..] == [] && s[..|s|] == s;
      []
    case Some(a) =>
      var b := LastNotOf(s, ' ').value;
      assert a <= b;
      s[a..b + 1]
  }

  /** A string without edge spaces is left alone by Trim. */
  lemma TrimFixed(t: string)
    requires NoEdgeSpaces(t)
    ensures Trim(t) == t
  {
    if t != [] {
      assert FirstNotOf(t, ' ') == Some(0);
      assert LastNotOf(t, ' ') == Some(|t| - 1);
      assert t[0..|t|] == t;
    }
  }

  /** Trimming twice changes nothing more than trimming once. */
  lemma TrimIdempotent(s: string)
    ensures Trim(Trim(s)) == Trim(s)
  {
    TrimFixed(Trim(s));
  }

  /** Trim undoes any padding with spaces: it recovers exactly the padded text. */
  lemma {:induction false} TrimPadding(pre: string, t: string, post: string)
    requires AllAre(pre, ' ') && AllAre(post, ' ') && NoEdgeSpaces(t)
    ensures Trim(pre + t + post) == t
  {
    var s := pre + t + post;
    if t == [] {
      assert s == pre + post;
      assert AllAre(s, ' ') by {
        forall k | 0 <= k < |s| ensures s[k] == ' ' {
          if k < |pre| { assert s[k] == pre[k]; } else { assert s[k] == post[k - |pre|]; }
        }
      }
    } else {
      assert s[|pre|] == t[0];
      assert s[..|pre|] == pre;
      FirstNotOfAt(s, ' ', |pre|);
      assert s[|pre| + |t| - 1] == t[|t| - 1];
      assert s[|pre| + |t|..] == post;
      LastNotOfAt(s, ' ', |pre| + |t| - 1);
      assert s[|pre|..|pre| + |t|] == t;
    }
  }

  /** FirstNotOf is determined by its contract. */
  lemma FirstNotOfAt(s: string, c: char, a: nat)
    requires a < |s| && s[a] != c && AllAre(s[..a], c)
    ensures FirstNotOf(s, c) == Some(a)
  {
  }

  /** LastNotOf is determined by its contract. */
  lemma LastNotOfAt(s: string, c: char, b: nat)
    requires b < |s| && s[b] != c && AllAre(s[b + 1..], c)
    ensures LastNotOf(s, c) == Some(b)
  {
  }

  /** The two halves GetWord splits a line into. */
  datatype WordSplit = WordSplit(word: string, rest: string)

  /** GetWord (tinymudserver.cpp): the text before the first space is the word, the
      trimmed text after it is the rest; with no space the whole line is the word. */
  function GetWord(line: string): (r: WordSplit)
    ensures ' ' !in r.word
    ensures NoEdgeSpaces(r.rest)
    ensures ' ' !in line ==> r.word == line && r.rest == []
    ensures ' ' in line ==>
              var k := IndexOf(line, ' ').value;
              r.word == line[..k] && r.rest == Trim(line[k + 1..])
  {
    match IndexOf(line, ' ')
    case None =>
      TrimNoSpace(line);
      WordSplit(Trim(line), Trim([]))
    case Some(k) =>
      TrimNoSpace(line[..k]);
      WordSplit(Trim(line[..k]), Trim(line[k + 1..]))
  }

  /** A string without spaces is its own trim. */
  lemma TrimNoSpace(s: string)
    requires ' ' !in s
    ensures Trim(s) == s
  {
    TrimFixed(s);
  }

  /** A word on its own is the whole verb, with nothing after it. */
  lemma GetWordAlone(w: string)
    requires ' ' !in w
    ensures GetWord(w) == WordSplit(w, [])
  {
  }

  /** GetWord splits a verb and a trimmed argument joined by one space back apart. */
  lemma GetWordJoin(w: string, t: string)
    requires ' ' !in w && NoEdgeSpaces(t)
    ensures GetWord(w + " " + t) == WordSplit(w, t)
  {
    var line := w + " " + t;
    assert line[|w|] == ' ';
    assert line[..|w|] == w;
    assert IndexOf(line, ' ') == Some(|w|);
    assert line[|w| + 1..] == t;
    TrimFixed(t);
  }

  /** string::erase(find(c), 1): removes the first c, if there is one. */
  function EraseFirst(s: string, c: char): (r: string)
    ensures c !in s ==> r == s
    ensures c in s ==> |r| == |s| - 1 && multiset(r) + multiset{c} == multiset(s)
    ensures c in s ==> var k := IndexOf(s, c).value; r[..k] == s[..k] && r[k..] == s[k + 1..]
  {
    match IndexOf(s, c)
    case None => s
    case Some(k) =>
      assert s == s[..k] + [s[k]] + s[k + 1..];
      s[..k] + s[k + 1..]
  }

  /** Only the first c goes: a line ending in its only carriage return loses it. */
  lemma EraseTrailing(s: string, c: char)
    requires c !in s
    ensures EraseFirst(s + [c], c) == s
  {
    var t := s + [c];
    assert t[..|s|] == s;
    assert IndexOf(t, c) == Some(|s|);
  }
}
