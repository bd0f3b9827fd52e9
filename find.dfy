/**
 * The regular-expression matcher of user/find.c (`match`, `matchhere`,
 * `matchstar`): `c` matches itself, `.` any character, `c*` zero or more
 * of `c`, a leading `^` anchors at the start and a trailing `$` at the end.
 *
 * A C string is modelled as the characters before its terminating NUL, so
 * `s[i]` for `i >= |s|` reads as `'\0'` (`At`).
 */
module Regex {

  /** The characters of a NUL-terminated C string, without the NUL. */
  type CString = s: seq<char> | '\0' !in s

  /** `s[i]` in C: the terminating NUL past the last character. */
  function At(s: CString, i: nat): (c: char)
    ensures c == '\0' <==> i >= |s|
  {
    if i < |s| then s[i] else '\0'
  }

  /** Whether pattern character `p` matches text character `c`: `.` matches anything. */
  predicate CharMatch(p: char, c: char)
  {
    p == '.' || p == c
  }

  function Drop(s: CString, n: nat): (r: CString)
    requires n <= |s|
    ensures r == s[n..]
  {
    assert forall c :: c in s[n..] ==> c in s;
    s[n..]
  }

  /** `matchhere(re, text)`: does `re` match at the beginning of `text`? */
  function MatchHere(re: CString, text: CString): bool
    decreases |re|, |text|, 1
  {
    if re == [] then true
    else if At(re, 1) == '*' then MatchStar(re[0], Drop(re, 2), text)
    else if re[0] == '$' && At(re, 1) == '\0' then text == []
    else if text != [] && CharMatch(re[0], text[0]) then MatchHere(Drop(re, 1), Drop(text, 1))
    else false
  }

  /**
   * `matchstar(c, re, text)`: does `c*` followed by `re` match at the
   * beginning of `text`?  The do-while loop tries `re` at each position
   * while the characters stepped over match `c`.
   */
  function MatchStar(c: char, re: CString, text: CString): bool
    decreases |re| + 1, |text|, 0
  {
    if MatchHere(re, text) then true
    else if text != [] && (text[0] == c || c == '.') then MatchStar(c, re, Drop(text, 1))
    else false
  }

  /** The do-while loop of `match`: try `re` at `text` and at every later suffix, the empty one included. */
  function MatchFrom(re: CString, text: CString): bool
  {
    if MatchHere(re, text) then true
    else if text == [] then false
    else MatchFrom(re, Drop(text, 1))
  }

  /** The loop of `match` succeeds exactly when `re` matches at the start of some suffix. */
  lemma {:induction false} MatchFromMeaning(re: CString, text: CString)
    ensures MatchFrom(re, text) <==> exists i :: 0 <= i <= |text| && MatchHere(re, text[i..])
  {
    assert text[0..] == text;
    if !MatchHere(re, text) && text != [] {
      MatchFromMeaning(re, Drop(text, 1));
      if MatchFrom(re, text) {
        var i :| 0 <= i <= |text| - 1 && MatchHere(re, text[1..][i..]);
        assert text[1..][i..] == text[i + 1..];
      } else {
        forall i | 1 <= i <= |text| ensures !MatchHere(re, text[i..]) {
          assert text[i..] == text[1..][i - 1..];
        }
      }
    }
  }

  /**
   * `match(re, text)`: a pattern starting with `^` must match at the start
   * of the text; any other pattern may match at any position, including at
   * the very end.
   */
  function Match(re: CString, text: CString): (r: bool)
    ensures At(re, 0) == '^' ==> (r <==> MatchHere(re[1..], text))
    ensures At(re, 0) != '^' ==> (r <==> exists i :: 0 <= i <= |text| && MatchHere(re, text[i..]))
  {
    if At(re, 0) == '^' then MatchHere(Drop(re, 1), text)
    else
      MatchFromMeaning(re, text);
      MatchFrom(re, text)
  }

  /** The empty pattern matches every text, anchored or not. */
  lemma EmptyMatchesAll(text: CString)
    ensures MatchHere([], text) && Match([], text) && Match(['^'], text)
  {
    assert text[0..] == text;
    assert ['^'][1..] == [];
  }

  /**
   * `c*` followed by `re` matches `text` exactly when, for some k, the first
   * k characters of `text` all match `c` and `re` matches the rest.
   */
  lemma {:induction false} StarMeaning(c: char, re: CString, text: CString)
    ensures MatchStar(c, re, text) <==>
            exists k :: 0 <= k <= |text| && (forall i :: 0 <= i < k ==> CharMatch(c, text[i]))
                                        && MatchHere(re, text[k..])
  {
    if MatchHere(re, text) {
      assert text[0..] == text;
    } else if text != [] && (text[0] == c || c == '.') {
      StarMeaning(c, re, Drop(text, 1));
      if MatchStar(c, re, text) {
        var k :| 0 <= k <= |text| - 1 && (forall i :: 0 <= i < k ==> CharMatch(c, text[1..][i]))
                                      && MatchHere(re, text[1..][k..]);
        assert text[1..][k..] == text[k + 1..];
        assert forall i :: 0 <= i < k + 1 ==> CharMatch(c, text[i]) by {
          forall i | 0 <= i < k + 1 ensures CharMatch(c, text[i]) {
            if i > 0 {
              assert text[i] == text[1..][i - 1];
            }
          }
        }
      } else {
        forall k | 1 <= k <= |text| && (forall i :: 0 <= i < k ==> CharMatch(c, text[i]))
          ensures !MatchHere(re, text[k..])
        {
          assert text[k..] == text[1..][k - 1..];
          assert forall i :: 0 <= i < k - 1 ==> CharMatch(c, text[1..][i]) by {
            forall i | 0 <= i < k - 1 ensures CharMatch(c, text[1..][i]) {
              assert text[1..][i] == text[i + 1];
            }
          }
        }
        assert text[0..] == text;
      }
    } else {
      forall k | 0 <= k <= |text| && (forall i :: 0 <= i < k ==> CharMatch(c, text[i]))
        ensures !MatchHere(re, text[k..])
      {
        if k == 0 {
          assert text[0..] == text;
        }
      }
    }
  }

  /** `re` matches `text` character by character, with `.` as a wildcard. */
  predicate Literal(re: seq<char>, text: seq<char>)
  {
    |re| == |text| && forall i :: 0 <= i < |re| ==> CharMatch(re[i], text[i])
  }

  /** Whether `re` ends with the end anchor `$`. */
  predicate EndAnchored(re: seq<char>)
  {
    re != [] && re[|re| - 1] == '$'
  }

  /**
   * A pattern without `*` or a final `$` matches at the start of `text`
   * exactly when it matches the first |re| characters literally.
   */
  lemma {:induction false} PlainMatchesPrefix(re: CString, text: CString)
    requires '*' !in re && !EndAnchored(re)
    ensures MatchHere(re, text) <==> |re| <= |text| && Literal(re, text[..|re|])
  {
    if re != [] {
      assert At(re, 1) != '*' by {
        if |re| > 1 {
          assert re[1] in re;
        }
      }
      assert !(re[0] == '$' && At(re, 1) == '\0');
      if text != [] && CharMatch(re[0], text[0]) {
        assert !EndAnchored(re[1..]);
        assert '*' !in re[1..] by {
          forall c | c in re[1..] ensures c != '*' {
            assert c in re;
          }
        }
        PlainMatchesPrefix(Drop(re, 1), Drop(text, 1));
        if |re| <= |text| {
          assert text[1..][..|re| - 1] == text[..|re|][1..];
          if Literal(re, text[..|re|]) {
            assert Literal(re[1..], text[1..][..|re| - 1]);
          }
        }
      }
    }
  }

  /**
   * A pattern without `*` followed by `$` matches at the start of `text`
   * exactly when it matches the whole of `text` literally: `$` matches only
   * at the end.
   */
  lemma {:induction false} DollarMatchesEnd(re: CString, text: CString)
    requires '*' !in re
    ensures '\0' !in re + ['$']
    ensures MatchHere(re + ['$'], text) <==> Literal(re, text)
  {
    var p: CString := re + ['$'];
    if re == [] {
      assert p == ['$'];
    } else {
      assert At(p, 1) != '*' by {
        assert p[1] in re || p[1] == '$';
      }
      assert p[1..] == re[1..] + ['$'];
      assert '*' !in re[1..] by {
        forall c | c in re[1..] ensures c != '*' {
          assert c in re;
        }
      }
      if text != [] {
        DollarMatchesEnd(Drop(re, 1), Drop(text, 1));
        if Literal(re, text) {
          assert Literal(re[1..], text[1..]);
        }
      }
    }
  }

  /** An unanchored pattern that matches at the start of the text matches the text. */
  lemma MatchAtStart(re: CString, text: CString)
    requires At(re, 0) != '^' && MatchHere(re, text)
    ensures Match(re, text)
  {
    assert text[0..] == text;
  }
}
