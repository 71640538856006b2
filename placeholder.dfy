/** The placeholder grammar of the enrollment-profile template and the matcher
    that recognises one placeholder at the start of a string.

    The template matcher is the regular expression  {{\s?([^{}\s]*)\s?}}  :
    the two characters "{{", at most one whitespace character, a name made of
    any characters other than '{', '}' and whitespace (possibly empty), at most
    one whitespace character, and "}}". */
module Placeholder {

  datatype Option<T> = None | Some(value: T)

  /** A successful match: the captured name and the number of characters the
      whole placeholder occupies. */
  datatype Match = Match(name: string, length: nat)

  /** The regular-expression class \s: the ECMAScript WhiteSpace and
      LineTerminator code points. */
  predicate IsWs(c: char) {
    c in WsChars
  }

  const WsChars: set<char> := {
    '\U{09}', '\U{0A}', '\U{0B}', '\U{0C}', '\U{0D}', '\U{20}', '\U{A0}', '\U{1680}',
    '\U{2000}', '\U{2001}', '\U{2002}', '\U{2003}', '\U{2004}', '\U{2005}', '\U{2006}',
    '\U{2007}', '\U{2008}', '\U{2009}', '\U{200A}', '\U{2028}', '\U{2029}', '\U{202F}',
    '\U{205F}', '\U{3000}', '\U{FEFF}'}

  /** The braces are not whitespace, so they are never taken by  \s? . */
  lemma BracesNotWs()
    ensures !IsWs('{') && !IsWs('}')
  {
  }

  /** The class [^{}\s] of characters allowed in a placeholder name. */
  predicate IsNameChar(c: char) {
    c != '{' && c != '}' && !IsWs(c)
  }

  /** s could be captured by  ([^{}\s]*) . */
  predicate IsName(s: string) {
    forall i :: 0 <= i < |s| ==> IsNameChar(s[i])
  }

  /** The text matched by  \s?  : empty or one whitespace character. */
  predicate IsOptWs(s: string) {
    |s| <= 1 && (|s| == 1 ==> IsWs(s[0]))
  }

  /** The placeholder spelled with leading whitespace w1, name and trailing whitespace w2. */
  function Text(w1: string, name: string, w2: string): string {
    "{{" + (w1 + (name + (w2 + "}}")))
  }

  /** t is, in its entirety, a placeholder whose captured name is `name`. */
  ghost predicate IsPlaceholder(t: string, name: string) {
    IsName(name) &&
    exists w1, w2 :: IsOptWs(w1) && IsOptWs(w2) && t == Text(w1, name, w2)
  }

  /** Where  \s?  tried at position i of t stops: one character further when
      a whitespace character stands there. */
  function OptWsAt(t: string, i: nat): (j: nat)
    requires i <= |t|
    ensures i <= j <= |t|
    ensures j == i + 1 <==> (i < |t| && IsWs(t[i]))
    ensures j == i <==> (i == |t| || !IsWs(t[i]))
  {
    if i < |t| && IsWs(t[i]) then i + 1 else i
  }

  /** Where the longest run of name characters starting at position i of t ends. */
  function NameEnd(t: string, i: nat): (j: nat)
    requires i <= |t|
    ensures i <= j <= |t|
    ensures forall k :: i <= k < j ==> IsNameChar(t[k])
    ensures j < |t| ==> !IsNameChar(t[j])
    decreases |t| - i
  {
    if i < |t| && IsNameChar(t[i]) then NameEnd(t, i + 1) else i
  }

  /** The matcher tried at the start of t. It takes the optional whitespace
      whenever it is there and the longest name; MatchExact below shows that
      no backtracking alternative could match differently. */
  function MatchPrefix(t: string): (r: Option<Match>)
    ensures r.Some? ==> 4 <= r.value.length <= |t|
  {
    if |t| < 2 || t[0] != '{' || t[1] != '{' then None
    else
      var a := OptWsAt(t, 2);
      var b := NameEnd(t, a);
      var c := OptWsAt(t, b);
      if c + 2 <= |t| && t[c] == '}' && t[c + 1] == '}' then Some(Match(t[a..b], c + 2))
      else None
  }

  /** The name run from i ends at j when every character in between is a
      name character and the one at j is not. */
  lemma NameEndAt(t: string, i: nat, j: nat)
    requires i <= j <= |t|
    requires forall k :: i <= k < j ==> IsNameChar(t[k])
    requires j == |t| || !IsNameChar(t[j])
    ensures NameEnd(t, i) == j
  {
  }

  /** Where each part of a placeholder spelling followed by more text sits. */
  lemma TextAt(w1: string, name: string, w2: string, rest: string)
    ensures var t := Text(w1, name, w2) + rest;
      var a, b, c := 2 + |w1|, 2 + |w1| + |name|, 2 + |w1| + |name| + |w2|;
      |t| == c + 2 + |rest| && t[0] == '{' && t[1] == '{'
      && (forall x :: 0 <= x < |w1| ==> t[2 + x] == w1[x])
      && (forall x :: 0 <= x < |name| ==> t[a + x] == name[x])
      && (forall x :: 0 <= x < |w2| ==> t[b + x] == w2[x])
      && t[c] == '}' && t[c + 1] == '}' && t[c + 2..] == rest
  {
    var t := Text(w1, name, w2) + rest;
    assert t == "{{" + (w1 + (name + (w2 + ("}}" + rest))));
  }

  /** Completeness: every spelling the grammar allows is matched, with the
      name and length of that spelling, whatever text follows it. */
  lemma MatchComplete(w1: string, name: string, w2: string, rest: string)
    requires IsOptWs(w1) && IsName(name) && IsOptWs(w2)
    ensures MatchPrefix(Text(w1, name, w2) + rest) == Some(Match(name, |Text(w1, name, w2)|))
  {
    BracesNotWs();
    var t := Text(w1, name, w2) + rest;
    TextAt(w1, name, w2, rest);
    var a, b, c := 2 + |w1|, 2 + |w1| + |name|, 2 + |w1| + |name| + |w2|;
    if w1 == [] && name == [] && w2 != [] {
      // the greedy matcher reads the trailing whitespace as the leading one
      assert t[2] == w2[0];
      assert OptWsAt(t, 2) == 3;
      NameEndAt(t, 3, 3);
      assert OptWsAt(t, 3) == 3;
      assert t[3..3] == name;
    } else {
      assert OptWsAt(t, 2) == a by {
        if w1 == [] && name != [] {
          assert t[2] == name[0];
        }
      }
      assert b < |t| && !IsNameChar(t[b]) by {
        if w2 != [] {
          assert t[b] == w2[0];
        }
      }
      NameEndAt(t, a, b);
      assert OptWsAt(t, b) == c by {
        if w2 != [] {
          assert t[b] == w2[0];
        }
      }
      assert t[a..b] == name;
    }
  }

  /** Soundness: what the matcher reports is a placeholder, spelled with the
      returned name and with the whitespace it took. */
  lemma MatchSound(t: string) returns (w1: string, w2: string)
    requires MatchPrefix(t).Some?
    ensures IsOptWs(w1) && IsOptWs(w2) && IsName(MatchPrefix(t).value.name)
    ensures t[..MatchPrefix(t).value.length] == Text(w1, MatchPrefix(t).value.name, w2)
  {
    var a := OptWsAt(t, 2);
    var b := NameEnd(t, a);
    var c := OptWsAt(t, b);
    var name := t[a..b];
    w1, w2 := t[2..a], t[b..c];
    assert MatchPrefix(t) == Some(Match(name, c + 2));
    assert IsName(name) by {
      forall x | 0 <= x < |name| ensures IsNameChar(name[x]) {
        assert name[x] == t[a + x];
      }
    }
    assert t[..c + 2] == t[..2] + (w1 + (name + (w2 + t[c..c + 2])));
    assert t[..2] == "{{" && t[c..c + 2] == "}}";
  }

  /** Exactness: the matcher reports (name, k) at the start of t exactly when
      the first k characters of t are a placeholder with that name. */
  lemma MatchExact(t: string, name: string, k: nat)
    requires k <= |t|
    ensures MatchPrefix(t) == Some(Match(name, k)) <==> IsPlaceholder(t[..k], name)
  {
    if MatchPrefix(t) == Some(Match(name, k)) {
      var w1, w2 := MatchSound(t);
      assert IsOptWs(w1) && IsOptWs(w2) && t[..k] == Text(w1, name, w2);
    }
    if IsPlaceholder(t[..k], name) {
      var w1, w2 :| IsOptWs(w1) && IsOptWs(w2) && t[..k] == Text(w1, name, w2);
      assert t == Text(w1, name, w2) + t[k..];
      MatchComplete(w1, name, w2, t[k..]);
    }
  }

  /** After "{{", the optional whitespace and a name, a whitespace character
      followed by a name character is outside the grammar (when the leading
      slot or the name is non-empty): both  {{ a b }}  and  {{  a}}  fail to
      match. */
  lemma InnerWhitespaceRejected(w1: string, a: string, c: char, d: char, rest: string)
    requires IsOptWs(w1) && IsName(a) && |w1| + |a| > 0
    requires IsWs(c) && IsNameChar(d)
    ensures MatchPrefix("{{" + (w1 + (a + [c, d]) + rest)) == None
  {
    var body := w1 + (a + [c, d]);
    var t := "{{" + (body + rest);
    var p, q := 2 + |w1|, 2 + |w1| + |a|;
    assert forall x :: 0 <= x < |body| ==> t[2 + x] == body[x];
    assert forall x :: 0 <= x < |a| ==> t[p + x] == a[x];
    assert t[q] == c && t[q + 1] == d;
    assert OptWsAt(t, 2) == p by {
      if w1 == [] {
        assert t[2] == a[0];
      } else {
        assert t[2] == w1[0];
      }
    }
    NameEndAt(t, p, q);
    // the name stops at c, the trailing slot takes c, and d stands where "}}" is needed
    assert OptWsAt(t, q) == q + 1;
  }

  /** No placeholder starts two characters before a '{': neither  \s?  nor the
      name can take it, and "}}" cannot begin with it. */
  lemma BraceAfterOpenRejected(t: string)
    requires 2 < |t| && t[2] == '{'
    ensures MatchPrefix(t) == None
  {
    BracesNotWs();
    assert OptWsAt(t, 2) == 2;
    NameEndAt(t, 2, 2);
  }
}
