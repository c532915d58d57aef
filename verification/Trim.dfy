// trim_string.cpp: spaces are squeezed in place, reading from a copy of the string.

module Trim {

  const NUL := '\0'

  // The string in a buffer: everything before its terminator.
  ghost predicate Holds(a: array<char>, s: string)
    reads a
  {
    |s| < a.Length && a[..|s|] == s && a[|s|] == NUL && NUL !in s
  }

  // What the loop writes: no leading space, and one space for every run of spaces.
  // `found` is found_space; at the start it is true, since a leading space is dropped
  // like any other that follows a space.
  function Squeeze(s: string, found: bool): string {
    if s == [] then []
    else if s[0] == ' ' then
      (if found then [] else [' ']) + Squeeze(s[1..], true)
    else [s[0]] + Squeeze(s[1..], false)
  }

  // The words of a string: its maximal runs of other characters than a space.
  function Words(s: string): seq<string> {
    if s == [] then []
    else if s[0] == ' ' then Words(s[1..])
    else if |s| == 1 || s[1] == ' ' then [[s[0]]] + Words(s[1..])
    else
      var rest := Words(s[1..]);
      if rest == [] then [] else [[s[0]] + rest[0]] + rest[1..]
  }

  predicate SingleSpaced(s: string) {
    forall i :: 0 <= i < |s| - 1 ==> !(s[i] == ' ' && s[i + 1] == ' ')
  }

  predicate EndsInSpace(s: string) {
    s != [] && s[|s| - 1] == ' '
  }

  // What the whole function leaves. The last space goes unless the character standing
  // behind the cursor in the original string is itself a space.
  function Trimmed(s: string): string {
    var t := Squeeze(s, true);
    if EndsInSpace(t) && !(|t| < |s| && s[|t|] == ' ') then t[..|t| - 1] else t
  }

  lemma {:induction false} SqueezeShape(s: string, found: bool)
    ensures |Squeeze(s, found)| <= |s|
    ensures found && Squeeze(s, found) != [] ==> Squeeze(s, found)[0] != ' '
    ensures SingleSpaced(Squeeze(s, found))
  {
    if s != [] {
      SqueezeShape(s[1..], s[0] == ' ');
    }
  }

  lemma {:induction false} WordStarts(s: string)
    requires s != [] && s[0] != ' '
    ensures Words(s) != []
  {
    if |s| > 1 && s[1] != ' ' {
      WordStarts(s[1..]);
    }
  }

  // A word by itself is one word, and a space parts the words on its two sides; that says what
  // the words of any string are.
  lemma {:induction false} OneWord(w: string)
    requires w != [] && ' ' !in w
    ensures Words(w) == [w]
  {
    if |w| > 1 {
      OneWord(w[1..]);
      assert w[1..][0] == w[1];
      assert [w[0]] + w[1..] == w;
    } else {
      assert w[1..] == [] && w == [w[0]];
    }
  }

  lemma {:induction false} SpaceParts(a: string, b: string)
    ensures Words(a + " " + b) == Words(a) + Words(b)
  {
    if a == [] {
      assert a + " " + b == [' '] + b && ([' '] + b)[1..] == b;
    } else {
      SpaceParts(a[1..], b);
      assert (a + " " + b)[1..] == a[1..] + " " + b;
      if |a| == 1 {
        assert a[1..] == [] && (a + " " + b)[1] == ' ';
      } else {
        assert (a + " " + b)[1] == a[1];
        if a[0] != ' ' && a[1] != ' ' {
          WordStarts(a[1..]);
        }
      }
    }
  }

  lemma {:induction false} SqueezeKeepsWords(s: string, found: bool)
    ensures Words(Squeeze(s, found)) == Words(s)
  {
    if s != [] {
      var t := Squeeze(s[1..], s[0] == ' ');
      SqueezeKeepsWords(s[1..], s[0] == ' ');
      if s[0] == ' ' {
        assert Squeeze(s, found) == if found then t else [' '] + t;
        assert ([' '] + t)[1..] == t;
      } else {
        assert Squeeze(s, found) == [s[0]] + t && ([s[0]] + t)[1..] == t;
        if |s| > 1 {
          assert t != [] && t[0] == s[1];
        }
      }
    }
  }

  lemma {:induction false} DropLastSpace(s: string)
    requires EndsInSpace(s)
    ensures Words(s[..|s| - 1]) == Words(s)
  {
    if |s| > 1 {
      DropLastSpace(s[1..]);
      assert s[1..][..|s| - 2] == s[..|s| - 1][1..];
    } else {
      assert s[1..] == [];
    }
  }

  // The words survive, nothing is longer than before, and at most the end is not tidy.
  lemma TrimmedMeaning(s: string)
    ensures var t := Trimmed(s);
      && |t| <= |s|
      && Words(t) == Words(s)
      && (t != [] ==> t[0] != ' ')
      && SingleSpaced(t)
  {
    SqueezeShape(s, true);
    SqueezeKeepsWords(s, true);
    var t := Squeeze(s, true);
    if EndsInSpace(t) {
      DropLastSpace(t);
    }
  }

  predicate AllSpaces(s: string) {
    s == [] || (s[0] == ' ' && AllSpaces(s[1..]))
  }

  lemma {:induction false} AllSpacesEnd(s: string)
    requires AllSpaces(s)
    ensures s == [] || EndsInSpace(s)
  {
    if |s| > 1 {
      AllSpacesEnd(s[1..]);
    }
  }

  lemma {:induction false} SqueezeEnds(s: string, found: bool)
    ensures Squeeze(s, found) == [] <==> if found then AllSpaces(s) else s == []
    ensures Squeeze(s, found) != [] ==> (EndsInSpace(Squeeze(s, found)) <==> EndsInSpace(s))
  {
    if s != [] {
      var rest := s[1..];
      SqueezeEnds(rest, s[0] == ' ');
      if AllSpaces(rest) {
        AllSpacesEnd(rest);
      }
    }
  }

  lemma {:induction false} NoWords(s: string)
    ensures Words(s) == [] <==> AllSpaces(s)
  {
    if s != [] {
      var rest := s[1..];
      NoWords(rest);
      if s[0] != ' ' {
        WordStarts(s);
      }
    }
  }

  // A trailing space is left exactly when the string has a word, ends in a space, and has a
  // space at the index of the squeezed length: "abc  " keeps one, "abc " keeps none.
  lemma KeepsTrailingSpaceExactlyWhen(s: string)
    ensures EndsInSpace(Trimmed(s)) <==>
      Words(s) != [] && EndsInSpace(s) &&
      var n := |Squeeze(s, true)|; n < |s| && s[n] == ' '
  {
    var t := Squeeze(s, true);
    SqueezeShape(s, true);
    SqueezeEnds(s, true);
    NoWords(s);
    if EndsInSpace(t) && !(|t| < |s| && s[|t|] == ' ') {
      assert |t| > 1 ==> t[|t| - 2] != ' ';
    }
  }

  lemma TrailingSpaceExamples()
    ensures Trimmed("abc  ") == "abc "
    ensures Trimmed("abc ") == "abc"
  {
    assert Squeeze("", true) == "" && Squeeze(" ", true) == "" && Squeeze(" ", false) == " ";
    assert Squeeze("  ", false) == " ";
    assert Squeeze("c  ", false) == "c " && Squeeze("c ", false) == "c ";
    assert Squeeze("bc  ", false) == "bc " && Squeeze("bc ", false) == "bc ";
  }

  lemma {:induction false} SqueezeSplit(s: string, r: nat)
    requires r < |s|
    ensures Squeeze(s[..r + 1], true) == Squeeze(s[..r], true) +
      if s[r] == ' ' && (r == 0 || s[r - 1] == ' ') then [] else [s[r]]
  {
    SqueezeAppend(s[..r], s[r], true);
    assert s[..r + 1] == s[..r] + [s[r]];
  }

  lemma {:induction false} SqueezeAppend(s: string, c: char, found: bool)
    ensures Squeeze(s + [c], found) == Squeeze(s, found) +
      if c == ' ' && (if s == [] then found else s[|s| - 1] == ' ') then [] else [c]
  {
    if s != [] {
      SqueezeAppend(s[1..], c, s[0] == ' ');
      assert (s + [c])[1..] == s[1..] + [c];
    } else {
      assert s + [c] == [c];
    }
  }

  lemma Contents(a: array<char>, s: string)
    requires Holds(a, s)
    ensures |s| < a.Length && a[..|s|] == s && a[|s|] == NUL && NUL !in s
  {
  }

  lemma HoldsNow(a: array<char>, s: string)
    requires |s| < a.Length && a[..|s|] == s && a[|s|] == NUL && NUL !in s
    ensures Holds(a, s)
  {
  }

  // strlen
  method StrLen(io_str: array<char>, ghost s: string) returns (len: nat)
    requires Holds(io_str, s)
    ensures len == |s|
  {
    forall i | 0 <= i < |s|
      ensures io_str[i] != NUL
    {
      assert io_str[..|s|][i] in s;
    }
    len := 0;
    while io_str[len] != NUL
      invariant len <= |s|
      decreases |s| - len
    {
      len := len + 1;
    }
  }

  // The buffer is rewritten from its start; every write stays behind the read cursor, and
  // nothing past the original terminator changes.
  method TrimString(io_str: array<char>, ghost s: string)
    requires Holds(io_str, s)
    modifies io_str
    ensures Holds(io_str, Trimmed(s))
    ensures forall i :: |s| < i < io_str.Length ==> io_str[i] == old(io_str[i])
  {
    hide Squeeze, Trimmed, Holds;
    SqueezeNothing();
    Contents(io_str, s);
    var len := StrLen(io_str, s);
    var buf := io_str[..len + 1];
    assert buf[..|s|] == s;
    var found_space := false;
    var r, w := 0, 0;
    while buf[r] != NUL
      invariant 0 <= w <= r <= |s|
      invariant io_str[..w] == Squeeze(s[..r], true)
      invariant forall i :: w <= i < io_str.Length ==> io_str[i] == old(io_str[i])
      invariant found_space == (r > 0 && s[r - 1] == ' ')
      invariant w == 0 ==> r == 0 || found_space
      decreases |s| - r
    {
      assert r < |s|;
      assert buf[r] == s[r];
      SqueezeSplit(s, r);
      if buf[r] == ' ' {
        if r == 0 {
          found_space := true;
        }
        if found_space {
          r := r + 1;
          continue;
        }
        io_str[w] := buf[r];
        found_space := true;
      } else {
        io_str[w] := buf[r];
        found_space := false;
      }
      w, r := w + 1, r + 1;
    }
    assert s[..r] == s;
    LastStep(s);
    if found_space && io_str[w] != ' ' {
      w := w - 1;
    }
    io_str[w] := NUL;
    NoNulLeft(s);
    HoldsNow(io_str, Trimmed(s));
  }

  lemma SqueezeNothing()
    ensures Squeeze([], true) == []
  {
  }

  // Stepping back over a last space never steps before the start.
  lemma LastStep(s: string)
    ensures var t, found := Squeeze(s, true), s != [] && s[|s| - 1] == ' ';
      && |t| <= |s|
      && (found && !(|t| < |s| && s[|t|] == ' ') ==> t != [])
      && Trimmed(s) == if found && !(|t| < |s| && s[|t|] == ' ') then t[..|t| - 1] else t
  {
    hide Squeeze, Words;
    SqueezeShape(s, true);
    SqueezeEnds(s, true);
  }

  lemma {:induction false} SqueezeFrom(s: string, found: bool)
    ensures forall c :: c in Squeeze(s, found) ==> c in s
  {
    if s != [] {
      SqueezeFrom(s[1..], s[0] == ' ');
    }
  }

  lemma NoNulLeft(s: string)
    requires NUL !in s
    ensures NUL !in Trimmed(s)
  {
    SqueezeFrom(s, true);
  }
}
