/** The keyword check of pngset.c: whatever the input, the output is a legal keyword
    (section 11.3.4.2 of the PNG specification) or empty, and it is the words of the
    input joined by single spaces, cut at 79 characters. */
module Keyword {
  import opened Arithmetic

  const MAX_LENGTH: nat := 79

  /** Printable Latin-1 other than space. */
  predicate Graphic(c: byte) {
    32 < c <= 126 || c >= 161
  }

  // ---------------------------------------------------------------- specification

  /** The words of a text: its maximal runs of graphic characters. `word` is the run
      that ends in front of the text. */
  function Words(word: seq<byte>, key: seq<byte>): seq<seq<byte>>
    decreases |key|
  {
    if key == [] then (if word == [] then [] else [word])
    else if Graphic(key[0]) then Words(word + [key[0]], key[1..])
    else (if word == [] then [] else [word]) + Words([], key[1..])
  }

  /** Words joined by single spaces. */
  function Join(words: seq<seq<byte>>): seq<byte> {
    if words == [] then []
    else if |words| == 1 then words[0]
    else words[0] + [32] + Join(words[1..])
  }

  function TrimEnd(s: seq<byte>): seq<byte> {
    if s != [] && s[|s| - 1] == 32 then s[..|s| - 1] else s
  }

  function Cut(s: seq<byte>): seq<byte> {
    TrimEnd(if |s| <= MAX_LENGTH then s else s[..MAX_LENGTH])
  }

  /** What a text becomes. */
  function Normal(key: seq<byte>): seq<byte> {
    Cut(Join(Words([], key)))
  }

  /** 1 to 79 graphic characters and spaces, no space first or last, no two in a row. */
  predicate Legal(s: seq<byte>) {
    && 1 <= |s| <= MAX_LENGTH
    && (forall i :: 0 <= i < |s| ==> Graphic(s[i]) || s[i] == 32)
    && s[0] != 32 && s[|s| - 1] != 32
    && (forall i :: 0 <= i < |s| - 1 ==> !(s[i] == 32 && s[i + 1] == 32))
  }

  // ---------------------------------------------------------------- one pass over the text

  /** The characters the loop writes, without its length limit. */
  function Collapse(space: bool, key: seq<byte>): seq<byte>
    decreases |key|
  {
    if key == [] then []
    else if Graphic(key[0]) then [key[0]] + Collapse(false, key[1..])
    else if !space then [32] + Collapse(true, key[1..])
    else Collapse(true, key[1..])
  }

  /** The single pass is the joined words, with at most one space behind them. */
  lemma {:induction false} PassIsJoin(word: seq<byte>, key: seq<byte>)
    ensures var out, joined := word + Collapse(word == [], key), Join(Words(word, key));
      && (out == joined || out == joined + [32])
      && (Words(word, key) == [] ==> out == [])
    decreases |key|
  {
    if key == [] {
      assert word + [] == word;
    } else if Graphic(key[0]) {
      PassIsJoin(word + [key[0]], key[1..]);
      assert word + ([key[0]] + Collapse(false, key[1..])) == (word + [key[0]]) + Collapse(false, key[1..]);
    } else {
      PassIsJoin([], key[1..]);
      var x := Collapse(true, key[1..]);
      assert [] + x == x;
      if word != [] {
        AfterWord(word, Words([], key[1..]), x);
      } else {
        assert word + x == x && Words(word, key) == Words([], key[1..]);
      }
    }
  }

  lemma AfterWord(word: seq<byte>, words: seq<seq<byte>>, x: seq<byte>)
    requires x == Join(words) || x == Join(words) + [32]
    requires words == [] ==> x == []
    ensures var out, joined := word + ([32] + x), Join([word] + words);
      out == joined || out == joined + [32]
  {
    assert ([word] + words)[1..] == words;
    if words == [] {
      assert [word] + words == [word];
    } else {
      assert word + ([32] + (Join(words) + [32])) == (word + [32] + Join(words)) + [32];
      assert word + ([32] + Join(words)) == word + [32] + Join(words);
    }
  }

  /** No leading space after a space, no doubled space, only legal characters. */
  predicate Spaced(space: bool, s: seq<byte>) {
    && (forall i :: 0 <= i < |s| ==> Graphic(s[i]) || s[i] == 32)
    && (space && s != [] ==> s[0] != 32)
    && (forall i :: 0 <= i < |s| - 1 ==> !(s[i] == 32 && s[i + 1] == 32))
  }

  lemma {:induction false} CollapseSpaced(space: bool, key: seq<byte>)
    ensures Spaced(space, Collapse(space, key))
    decreases |key|
  {
    if key != [] {
      var graphic := Graphic(key[0]);
      CollapseSpaced(!graphic, key[1..]);
    }
  }

  /** A text that is already properly spaced goes through unchanged. */
  lemma {:induction false} SpacedUnchanged(space: bool, key: seq<byte>)
    requires Spaced(space, key)
    ensures Collapse(space, key) == key
    decreases |key|
  {
    if key != [] {
      SpacedUnchanged(!Graphic(key[0]), key[1..]);
    }
  }

  lemma {:induction false} JoinEnd(words: seq<seq<byte>>)
    requires forall i :: 0 <= i < |words| ==> words[i] != [] && words[i][|words[i]| - 1] != 32
    ensures words != [] ==> Join(words) != [] && Join(words)[|Join(words)| - 1] != 32
  {
    if |words| > 1 {
      JoinEnd(words[1..]);
    }
  }

  lemma {:induction false} WordsGraphic(word: seq<byte>, key: seq<byte>)
    requires forall i :: 0 <= i < |word| ==> Graphic(word[i])
    ensures forall j :: 0 <= j < |Words(word, key)| ==>
              Words(word, key)[j] != [] && Words(word, key)[j][|Words(word, key)[j]| - 1] != 32
    decreases |key|
  {
    if key != [] {
      if Graphic(key[0]) {
        WordsGraphic(word + [key[0]], key[1..]);
      } else {
        WordsGraphic([], key[1..]);
      }
    }
  }

  /** Cutting the single pass is cutting the joined words. */
  lemma CutPass(key: seq<byte>)
    ensures Cut(Collapse(true, key)) == Normal(key)
  {
    hide Collapse, Words, Join;
    PassIsJoin([], key);
    var out, joined := Collapse(true, key), Join(Words([], key));
    assert [] + out == out;
    WordsGraphic([], key);
    JoinEnd(Words([], key));
    if out == joined + [32] {
      CutTrailing(joined);
    }
  }

  lemma CutTrailing(s: seq<byte>)
    requires s == [] || s[|s| - 1] != 32
    ensures Cut(s + [32]) == Cut(s)
  {
    var out := s + [32];
    assert out[..|s|] == s;
    if |s| > MAX_LENGTH {
      assert out[..MAX_LENGTH] == s[..MAX_LENGTH];
    }
  }

  /** Every output is a legal keyword or empty. */
  lemma NormalIsLegal(key: seq<byte>)
    ensures Normal(key) == [] || Legal(Normal(key))
  {
    CutPass(key);
    CollapseSpaced(true, key);
    CutLegal(Collapse(true, key));
  }

  lemma CutLegal(s: seq<byte>)
    requires Spaced(true, s)
    ensures Cut(s) == [] || Legal(Cut(s))
  {
    var t := if |s| <= MAX_LENGTH then s else s[..MAX_LENGTH];
    var r := Cut(s);
    assert r <= t <= s;
    if r != [] {
      assert r[0] == s[0];
      if |r| < |t| {
        assert s[|r|] == 32 && |r| - 1 < |s| - 1;
        assert s[|r| - 1] != 32;
      }
      forall i | 0 <= i < |r| - 1
        ensures !(r[i] == 32 && r[i + 1] == 32)
      {
        assert r[i] == s[i] && r[i + 1] == s[i + 1];
      }
    }
  }

  /** Every legal keyword is returned unchanged, ... */
  lemma LegalUnchanged(key: seq<byte>)
    requires Legal(key)
    ensures Normal(key) == key
  {
    CutPass(key);
    SpacedUnchanged(true, key);
  }

  /** ... so a second check changes nothing. */
  lemma NormalIdempotent(key: seq<byte>)
    ensures Normal(Normal(key)) == Normal(key)
  {
    NormalIsLegal(key);
    if Normal(key) != [] {
      LegalUnchanged(Normal(key));
    }
  }

  // ---------------------------------------------------------------- what is kept

  /** The graphic characters of a text, each with whether anything else stands in front of it. */
  function Marks(gap: bool, key: seq<byte>): seq<(byte, bool)>
    decreases |key|
  {
    if key == [] then []
    else if Graphic(key[0]) then [(key[0], gap)] + Marks(false, key[1..])
    else Marks(true, key[1..])
  }

  lemma {:induction false} CollapseMarks(space: bool, key: seq<byte>)
    ensures Marks(space, Collapse(space, key)) == Marks(space, key)
    decreases |key|
  {
    if key != [] {
      var rest := key[1..];
      CollapseMarks(!Graphic(key[0]), rest);
      var out := Collapse(space, key);
      if Graphic(key[0]) {
        assert out[1..] == Collapse(false, rest);
      } else if !space {
        assert out[0] == 32 && out[1..] == Collapse(true, rest);
      }
    }
  }

  lemma {:induction false} MarksPrefix(gap: bool, s: seq<byte>, n: nat)
    requires n <= |s|
    ensures Marks(gap, s[..n]) <= Marks(gap, s)
    ensures n < |s| && (forall i :: n <= i < |s| ==> !Graphic(s[i])) ==> Marks(gap, s[..n]) == Marks(gap, s)
    decreases |s|
  {
    if n > 0 {
      assert s[..n][1..] == s[1..][..n - 1];
      MarksPrefix(!Graphic(s[0]), s[1..], n - 1);
    } else if s != [] {
      if !Graphic(s[0]) && |s| > 1 {
        MarksPrefix(true, s[1..], 0);
        assert s[1..][..0] == s[..0];
      }
    }
  }

  /** No graphic character is lost, moved or joined to another one, unless the text is cut: the
      output has the marks of the input, or those in front of the cut. */
  lemma MarksKept(key: seq<byte>)
    ensures Marks(true, Normal(key)) <= Marks(true, key)
    ensures Marks(true, Normal(key)) == Marks(true, key) || |Normal(key)| >= MAX_LENGTH - 1
  {
    var out := Collapse(true, key);
    CutPass(key);
    CollapseMarks(true, key);
    var n := |Cut(out)|;
    assert Cut(out) == out[..n];
    MarksPrefix(true, out, n);
    if |out| <= MAX_LENGTH && n == |out| {
      assert out[..n] == out;
    }
  }

  // ---------------------------------------------------------------- the method

  lemma CollapseSnoc(key: seq<byte>, n: nat)
    requires n < |key|
    ensures Collapse(true, key[..n + 1]) ==
            Collapse(true, key[..n])
            + (if Graphic(key[n]) then [key[n]]
               else if Pending(key[..n]) then [] else [32])
    ensures Pending(key[..n + 1]) <==> !Graphic(key[n])
  {
    assert key[..n + 1] == key[..n] + [key[n]];
    CollapseAppend(true, key[..n], key[n]);
  }

  /** The flag `space` after a prefix. */
  predicate Pending(prefix: seq<byte>) {
    prefix == [] || !Graphic(prefix[|prefix| - 1])
  }

  lemma {:induction false} CollapseAppend(space: bool, s: seq<byte>, c: byte)
    ensures Collapse(space, s + [c]) ==
            Collapse(space, s)
            + (if Graphic(c) then [c]
               else if (if s == [] then space else Pending(s)) then [] else [32])
    decreases |s|
  {
    if s == [] {
      assert s + [c] == [c] && Collapse(true, [c][1..]) == [] && Collapse(false, [c][1..]) == [];
    } else {
      assert (s + [c])[1..] == s[1..] + [c];
      CollapseAppend(!Graphic(s[0]), s[1..], c);
    }
  }

  lemma {:induction false} CollapseGrows(key: seq<byte>, n: nat)
    requires n <= |key|
    ensures Collapse(true, key[..n]) <= Collapse(true, key)
    decreases |key| - n
  {
    if n < |key| {
      CollapseGrows(key, n + 1);
      CollapseSnoc(key, n);
    } else {
      assert key[..n] == key;
    }
  }

  lemma {:induction false} PendingMeansSpace(key: seq<byte>)
    ensures var out := Collapse(true, key);
      out != [] ==> (Pending(key) <==> out[|out| - 1] == 32)
    decreases |key|
  {
    if key != [] {
      var n := |key| - 1;
      assert key[..n + 1] == key;
      CollapseSnoc(key, n);
      PendingMeansSpace(key[..n]);
    }
  }

  /** Where the loop stops, the output without a last space is the keyword. */
  lemma Finished(text: seq<byte>, i: nat)
    requires i <= |text| && |Collapse(true, text[..i])| <= MAX_LENGTH
    requires i == |text| || |Collapse(true, text[..i])| == MAX_LENGTH
    ensures var out := Collapse(true, text[..i]);
      Normal(text) == if out != [] && Pending(text[..i]) then out[..|out| - 1] else out
  {
    hide Collapse, Normal, Pending;
    CollapseGrows(text, i);
    assert text[..|text|] == text;
    PendingMeansSpace(text[..i]);
    CutPass(text);
    var out, all := Collapse(true, text[..i]), Collapse(true, text);
    assert i < |text| ==> out == all[..MAX_LENGTH];
  }

  /** png_check_keyword; None is the null pointer. The buffer holds the keyword and a
      terminator. */
  method CheckKeyword(key: Option<seq<byte>>, newKey: array<byte>) returns (keyLen: nat)
    requires newKey.Length >= 80
    modifies newKey
    ensures keyLen <= MAX_LENGTH && newKey[keyLen] == 0
    ensures newKey[..keyLen] == if key.None? then [] else Normal(key.value)
  {
    if key.None? {
      newKey[0] := 0;
      return 0;
    }
    var text := key.value;
    var space := true;
    keyLen := 0;
    var i := 0;
    assert text[..0] == [];
    while i < |text| && keyLen < MAX_LENGTH
      invariant i <= |text| && keyLen <= MAX_LENGTH && space == Pending(text[..i])
      invariant newKey[..keyLen] == Collapse(true, text[..i])
    {
      hide Collapse;
      CollapseSnoc(text, i);
      var ch := text[i];
      if Graphic(ch) {
        newKey[keyLen] := ch;
        keyLen, space := keyLen + 1, false;
      } else if !space {
        newKey[keyLen] := 32;
        keyLen, space := keyLen + 1, true;
      }
      i := i + 1;
    }
    Finished(text, i);
    if keyLen > 0 && space {
      keyLen := keyLen - 1;
    }
    newKey[keyLen] := 0;
  }
}
