/** Splitting a string at a separator (str_split in src/string.c). */
module Split {

  const BUFFER := 128

  /** The words, each followed by c. */
  function Glue(words: seq<string>, c: char): string
  {
    if words == [] then "" else words[0] + [c] + Glue(words[1..], c)
  }

  /** The words with c between them. */
  function Join(words: seq<string>, c: char): string
    requires words != []
  {
    Glue(words[..|words| - 1], c) + words[|words| - 1]
  }

  predicate Clean(words: seq<string>, c: char)
  {
    forall i :: 0 <= i < |words| ==> c !in words[i]
  }

  function NonEmpty(words: seq<string>): seq<string>
  {
    if words == [] then [] else (if words[0] == "" then [] else [words[0]]) + NonEmpty(words[1..])
  }

  function Reversed(words: seq<string>): seq<string>
  {
    if words == [] then [] else Reversed(words[1..]) + [words[0]]
  }

  lemma {:induction false} GlueMore(words: seq<string>, w: string, c: char)
    ensures Glue(words + [w], c) == Glue(words, c) + w + [c]
  {
    if words == [] {
      assert Glue([w], c) == w + [c] + Glue([], c);
    } else {
      assert (words + [w])[1..] == words[1..] + [w];
      GlueMore(words[1..], w, c);
    }
  }

  lemma {:induction false} NonEmptyMore(words: seq<string>, w: string)
    ensures NonEmpty(words + [w]) == NonEmpty(words) + if w == "" then [] else [w]
  {
    if words == [] {
      assert [w][1..] == [];
    } else {
      assert (words + [w])[1..] == words[1..] + [w];
      NonEmptyMore(words[1..], w);
    }
  }

  /** No word is too long for the buffer. */
  ghost predicate FitsBuffer(s: string, c: char)
  {
    forall i {:trigger Run(s, c, i)} :: 0 <= i && i + BUFFER <= |s| ==> !Run(s, c, i)
  }

  /** BUFFER characters in a row without c. */
  ghost predicate Run(s: string, c: char, i: int)
    requires 0 <= i && i + BUFFER <= |s|
  {
    c !in s[i..i + BUFFER]
  }

  /** The words that are to be kept. */
  function Kept(words: seq<string>, empty: bool): seq<string>
  {
    if empty then words else NonEmpty(words)
  }

  lemma {:induction false} NonEmptyCounts(words: seq<string>)
    ensures forall w :: multiset(NonEmpty(words))[w] == if w == "" then 0 else multiset(words)[w]
  {
    if words != [] {
      NonEmptyCounts(words[1..]);
      assert words == [words[0]] + words[1..];
    }
  }

  /** Dropping empty words is done word by word: the others stay, in order. */
  lemma {:induction false} NonEmptySplits(u: seq<string>, w: string, v: seq<string>)
    ensures NonEmpty(u + [w] + v) == NonEmpty(u) + (if w == "" then [] else [w]) + NonEmpty(v)
  {
    SplitHead(u, w, v);
    if u != [] {
      NonEmptySplits(u[1..], w, v);
    }
  }

  lemma SplitHead(u: seq<string>, w: string, v: seq<string>)
    ensures if u == [] then u + [w] + v == [w] + v && ([w] + v)[1..] == v else (u + [w] + v)[1..] == u[1..] + [w] + v && (u + [w] + v)[0] == u[0]
  {
  }

  /** The state of the loop after i characters: `all` words so far, those kept in the list, newest first, and the current one. */
  ghost predicate Splitting(s: string, c: char, empty: bool, i: int, all: seq<string>, list: seq<string>, word: string)
  {
    && 0 <= i <= |s| && Clean(all, c) && c !in word
    && Glue(all, c) + word == s[..i] && Reversed(list) == Kept(all, empty)
  }

  lemma EndWord(s: string, c: char, empty: bool, i: int, all: seq<string>, list: seq<string>, word: string)
    requires Splitting(s, c, empty, i, all, list, word) && i < |s| && s[i] == c
    ensures Splitting(s, c, empty, i + 1, all + [word], if word == "" && !empty then list else [word] + list, "")
  {
    GlueMore(all, word, c);
    NonEmptyMore(all, word);
    assert s[..i + 1] == s[..i] + [c];
    assert ([word] + list)[1..] == list;
  }

  lemma MoreWord(s: string, c: char, empty: bool, i: int, all: seq<string>, list: seq<string>, word: string)
    requires Splitting(s, c, empty, i, all, list, word) && i < |s| && s[i] != c
    ensures Splitting(s, c, empty, i + 1, all, list, word + [s[i]])
  {
    assert s[..i + 1] == s[..i] + [s[i]];
    assert Glue(all, c) + (word + [s[i]]) == Glue(all, c) + word + [s[i]];
  }

  /** The current word is shorter than the buffer. */
  lemma Room(s: string, c: char, empty: bool, i: int, all: seq<string>, list: seq<string>, word: string)
    requires FitsBuffer(s, c) && Splitting(s, c, empty, i, all, list, word)
    ensures |word| < BUFFER
  {
    if |word| >= BUFFER {
      var g := |Glue(all, c)|;
      assert word == s[..i][g..];
      assert word[..BUFFER] == s[g..g + BUFFER];
      assert Run(s, c, g);
    }
  }

  lemma Finish(s: string, c: char, empty: bool, all: seq<string>, list: seq<string>, word: string)
    requires Splitting(s, c, empty, |s|, all, list, word)
    ensures Join(all + [word], c) == s && Clean(all + [word], c)
    ensures Reversed(if word == "" && !empty then list else [word] + list) == Kept(all + [word], empty)
  {
    assert (all + [word])[..|all|] == all && s[..|s|] == s;
    NonEmptyMore(all, word);
    assert ([word] + list)[1..] == list;
  }

  /** The words of s, from its end to its start. */
  function Words(s: string, c: char): (words: seq<string>)
    ensures words != []
  {
    if s == "" then [""]
    else
      var rest := Words(s[1..], c);
      if s[0] == c then [""] + rest else [[s[0]] + rest[0]] + rest[1..]
  }

  /** They contain no separator, and joining them gives back the string. */
  lemma {:induction false} WordsJoin(s: string, c: char)
    ensures Clean(Words(s, c), c) && Join(Words(s, c), c) == s
  {
    if s != "" {
      WordsJoin(s[1..], c);
      var rest := Words(s[1..], c);
      if s[0] == c { JoinFirst("", rest, c); } else { JoinLonger(s[0], rest, c); }
    }
  }

  lemma JoinFirst(w: string, rest: seq<string>, c: char)
    requires rest != []
    ensures Join([w] + rest, c) == w + [c] + Join(rest, c)
  {
    var words, n := [w] + rest, |rest|;
    assert words[..n][1..] == rest[..n - 1] && words[..n][0] == w;
  }

  lemma JoinLonger(x: char, rest: seq<string>, c: char)
    requires rest != []
    ensures Join([[x] + rest[0]] + rest[1..], c) == [x] + Join(rest, c)
  {
    var words, n := [[x] + rest[0]] + rest[1..], |rest| - 1;
    if n > 0 {
      assert words[..n][1..] == rest[..n][1..] && words[..n][0] == [x] + rest[0] && rest[..n][0] == rest[0];
    }
  }

  /** `str_split`: the words between the separators, with or without the empty ones. */
  method StrSplit(s: string, c: char, empty: bool) returns (res: seq<string>)
    requires FitsBuffer(s, c)
    ensures res == Kept(Words(s, c), empty)
    ensures empty ==> res == Words(s, c)
    ensures !empty ==> forall w :: multiset(res)[w] == if w == "" then 0 else multiset(Words(s, c))[w]
  {
    var buffer := new char[BUFFER];
    var pos, list := 0, [];
    ghost var all := [];
    var i := 0;
    while i < |s|
      invariant 0 <= pos < BUFFER && 0 <= i <= |s| && Splitting(s, c, empty, i, all, list, buffer[..pos])
    {
      pos, list, all := OneChar(s, c, empty, i, buffer, pos, list, all);
      i := i + 1;
    }
    Finish(s, c, empty, all, list, buffer[..pos]);
    all := all + [buffer[..pos]];
    if !(pos == 0 && !empty) {
      list := [buffer[..pos]] + list;
    }
    res := Reversed(list);
    WordsJoin(s, c);
    JoinOnce(all, Words(s, c), c);
    NonEmptyCounts(Words(s, c));
  }

  /** One turn of the loop. */
  method OneChar(s: string, c: char, empty: bool, i: nat, buffer: array<char>, pos: nat, list: seq<string>, ghost all: seq<string>)
    returns (pos': nat, list': seq<string>, ghost all': seq<string>)
    requires FitsBuffer(s, c) && i < |s| && buffer.Length == BUFFER && pos < BUFFER && Splitting(s, c, empty, i, all, list, buffer[..pos])
    modifies buffer
    ensures pos' < BUFFER && Splitting(s, c, empty, i + 1, all', list', buffer[..pos'])
  {
    pos', list', all' := pos, list, all;
    ghost var word := buffer[..pos];
    if s[i] == c && !(pos == 0 && !empty) {
      EndWord(s, c, empty, i, all, list, word);
      list' := [buffer[..pos]] + list;
      pos' := 0;
      all' := all + [word];
      assert buffer[..pos'] == "";
    } else if s[i] != c {
      MoreWord(s, c, empty, i, all, list, word);
      Room(s, c, empty, i + 1, all, list, word + [s[i]]);
      buffer[pos] := s[i];
      pos' := pos + 1;
      assert buffer[..pos'] == word + [s[i]];
    } else {
      EndWord(s, c, empty, i, all, list, word);
      all' := all + [word];
    }
  }

  /** There is only one way to split a string into words without c. */
  lemma {:induction false} JoinOnce(a: seq<string>, b: seq<string>, c: char)
    requires a != [] && b != [] && Clean(a, c) && Clean(b, c) && Join(a, c) == Join(b, c)
    ensures a == b
    decreases |a|
  {
    JoinHead(a, c);
    JoinHead(b, c);
    if |a| > 1 {
      var s := Join(a, c);
      assert s[|a[0]|] == c;
      HeadsAgree(s, a[0], Join(a[1..], c), b[0], Join(b[1..], c), c);
      JoinOnce(a[1..], b[1..], c);
      assert a == [a[0]] + a[1..] && b == [b[0]] + b[1..];
    }
  }

  lemma JoinHead(a: seq<string>, c: char)
    requires a != [] && Clean(a, c)
    ensures Join(a, c) == if |a| == 1 then a[0] else a[0] + [c] + Join(a[1..], c)
    ensures c in Join(a, c) <==> |a| > 1
  {
    if |a| > 1 {
      assert (a[0] + [c] + Join(a[1..], c))[|a[0]|] == c;
      assert a[..|a| - 1][1..] == a[1..][..|a| - 2];
      assert a[..|a| - 1][0] == a[0];
    }
  }

  lemma HeadsAgree(s: string, u: string, x: string, v: string, y: string, c: char)
    requires c !in u && c !in v && s == u + [c] + x && s == v + [c] + y
    ensures u == v && x == y
  {
    assert s[|u|] == c && s[|v|] == c;
    assert forall j :: 0 <= j < |u| ==> s[j] == u[j];
    assert forall j :: 0 <= j < |v| ==> s[j] == v[j];
    assert u == s[..|u|] && v == s[..|v|];
    assert x == s[|u| + 1..] && y == s[|v| + 1..];
  }
}
