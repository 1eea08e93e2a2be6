/** The regular expressions that match patterns compile to, as a direct matcher over token
    sequences. The compiled expressions use only literal characters, an optional character,
    and one-or-more / zero-or-more runs of a character class, always anchored with `^...$`,
    so a token sequence matched against the WHOLE string is their exact meaning. */
module Glob {
  import opened Text

  /** The character classes the compiled expressions use. */
  datatype Class =
    | NotLineTerminator  // `.`
    | NotDot             // `[^.]`
    | NotSlash           // `[^/]`

  predicate InClass(k: Class, c: char) {
    match k
    case NotLineTerminator => !IsLineTerminator(c)
    case NotDot => c != '.'
    case NotSlash => c != '/'
  }

  /** Every character of `s` is in class `k`. */
  predicate AllIn(k: Class, s: string) {
    forall i :: 0 <= i < |s| ==> InClass(k, s[i])
  }

  datatype Tok =
    | Lit(c: char)   // the character itself (an escaped character in the expression)
    | Opt(c: char)   // `c?`
    | One(k: Class)  // one character of the class
    | Star(k: Class) // `k*`

  /** The token sequence matches the whole string (the expression is anchored at both ends). */
  predicate Matches(p: seq<Tok>, s: string)
    decreases |p| + |s|
  {
    if p == [] then s == []
    else
      match p[0]
      case Lit(c) => s != [] && s[0] == c && Matches(p[1..], s[1..])
      case Opt(c) => Matches(p[1..], s) || (s != [] && s[0] == c && Matches(p[1..], s[1..]))
      case One(k) => s != [] && InClass(k, s[0]) && Matches(p[1..], s[1..])
      case Star(k) => Matches(p[1..], s) || (s != [] && InClass(k, s[0]) && Matches(p, s[1..]))
  }

  /** The literal characters of `w`. */
  function Lits(w: string): (p: seq<Tok>)
    ensures |p| == |w| && forall i :: 0 <= i < |w| ==> p[i] == Lit(w[i])
  {
    seq(|w|, i requires 0 <= i < |w| => Lit(w[i]))
  }

  /** `k+`. */
  function Plus(k: Class): seq<Tok> {
    [One(k), Star(k)]
  }

  /** A match of `p` on a prefix followed by a match of `q` on the rest is a match of `p + q`. */
  lemma {:induction false} ConcatIntro(p: seq<Tok>, q: seq<Tok>, s: string, i: nat)
    requires i <= |s| && Matches(p, s[..i]) && Matches(q, s[i..])
    ensures Matches(p + q, s)
    decreases |p| + |s|
  {
    if p == [] {
      assert p + q == q;
      assert s[i..] == s;
    } else {
      assert (p + q)[0] == p[0];
      assert (p + q)[1..] == p[1..] + q;
      var front := s[..i];
      match p[0]
      case Lit(c) =>
        assert front[1..] == s[1..][..i - 1];
        assert s[i..] == s[1..][i - 1..];
        ConcatIntro(p[1..], q, s[1..], i - 1);
      case One(k) =>
        assert front[1..] == s[1..][..i - 1];
        assert s[i..] == s[1..][i - 1..];
        ConcatIntro(p[1..], q, s[1..], i - 1);
      case Opt(c) =>
        if Matches(p[1..], front) {
          ConcatIntro(p[1..], q, s, i);
        } else {
          assert front[1..] == s[1..][..i - 1];
          assert s[i..] == s[1..][i - 1..];
          ConcatIntro(p[1..], q, s[1..], i - 1);
        }
      case Star(k) =>
        if Matches(p[1..], front) {
          ConcatIntro(p[1..], q, s, i);
        } else {
          assert front[1..] == s[1..][..i - 1];
          assert s[i..] == s[1..][i - 1..];
          ConcatIntro(p, q, s[1..], i - 1);
        }
    }
  }

  /** A match of `p + q` splits into a match of `p` on a prefix and of `q` on the rest. */
  lemma {:induction false} ConcatElim(p: seq<Tok>, q: seq<Tok>, s: string) returns (i: nat)
    requires Matches(p + q, s)
    ensures i <= |s| && Matches(p, s[..i]) && Matches(q, s[i..])
    decreases |p| + |s|
  {
    if p == [] {
      assert p + q == q;
      i := 0;
    } else {
      assert (p + q)[0] == p[0];
      assert (p + q)[1..] == p[1..] + q;
      match p[0]
      case Lit(c) =>
        var j := ConcatElim(p[1..], q, s[1..]);
        i := j + 1;
        assert s[..i][1..] == s[1..][..j];
        assert s[i..] == s[1..][j..];
      case One(k) =>
        var j := ConcatElim(p[1..], q, s[1..]);
        i := j + 1;
        assert s[..i][1..] == s[1..][..j];
        assert s[i..] == s[1..][j..];
      case Opt(c) =>
        if Matches(p[1..] + q, s) {
          i := ConcatElim(p[1..], q, s);
        } else {
          var j := ConcatElim(p[1..], q, s[1..]);
          i := j + 1;
          assert s[..i][1..] == s[1..][..j];
          assert s[i..] == s[1..][j..];
        }
      case Star(k) =>
        if Matches(p[1..] + q, s) {
          i := ConcatElim(p[1..], q, s);
        } else {
          var j := ConcatElim(p, q, s[1..]);
          i := j + 1;
          assert s[..i][1..] == s[1..][..j];
          assert s[i..] == s[1..][j..];
        }
    }
  }

  /** Literal tokens match exactly their own text. */
  lemma {:induction false} LitsExactly(w: string, s: string)
    ensures Matches(Lits(w), s) <==> s == w
    decreases |w|
  {
    if w != [] {
      assert Lits(w)[1..] == Lits(w[1..]);
      if s != [] {
        LitsExactly(w[1..], s[1..]);
        if s[0] == w[0] && s[1..] == w[1..] {
          assert s == [s[0]] + s[1..] && w == [w[0]] + w[1..];
        }
      }
    }
  }

  /** Literal tokens in front of `q`: the string starts with the text and `q` matches the rest. */
  lemma LitsThen(w: string, q: seq<Tok>, s: string)
    ensures Matches(Lits(w) + q, s) <==> StartsWith(s, w) && Matches(q, s[|w|..])
  {
    if Matches(Lits(w) + q, s) {
      var i := ConcatElim(Lits(w), q, s);
      LitsExactly(w, s[..i]);
    }
    if StartsWith(s, w) && Matches(q, s[|w|..]) {
      LitsExactly(w, s[..|w|]);
      ConcatIntro(Lits(w), q, s, |w|);
    }
  }

  /** One literal character in front of `q`. */
  lemma LitThen(c: char, q: seq<Tok>, s: string)
    ensures Matches([Lit(c)] + q, s) <==> s != [] && s[0] == c && Matches(q, s[1..])
  {
    assert ([Lit(c)] + q)[0] == Lit(c);
    assert ([Lit(c)] + q)[1..] == q;
  }

  /** `k*` matches exactly the strings made of class-`k` characters. */
  lemma {:induction false} StarExactly(k: Class, s: string)
    ensures Matches([Star(k)], s) <==> AllIn(k, s)
    decreases |s|
  {
    assert [Star(k)][1..] == [];
    if s != [] {
      StarExactly(k, s[1..]);
      assert AllIn(k, s) <==> InClass(k, s[0]) && AllIn(k, s[1..]) by {
        assert forall i :: 0 < i < |s| ==> s[i] == s[1..][i - 1];
      }
    }
  }

  /** `k+` matches exactly the non-empty strings made of class-`k` characters. */
  lemma PlusExactly(k: Class, s: string)
    ensures Matches(Plus(k), s) <==> s != [] && AllIn(k, s)
  {
    assert Plus(k)[1..] == [Star(k)];
    if s != [] {
      StarExactly(k, s[1..]);
      assert AllIn(k, s) <==> InClass(k, s[0]) && AllIn(k, s[1..]) by {
        assert forall i :: 0 < i < |s| ==> s[i] == s[1..][i - 1];
      }
    }
  }

  /** `c?` matches the empty string and `c`, nothing else. */
  lemma OptExactly(c: char, s: string)
    ensures Matches([Opt(c)], s) <==> s == [] || s == [c]
  {
    assert [Opt(c)][1..] == [];
    if s != [] && s[0] == c && s[1..] == [] {
      assert s == [c];
    }
  }
}
