/**
 * Translation of Hoppscotch variable references `<<name>>` into Postman's
 * `{{name}}` syntax: the global, non-greedy replacement `/<<(.*?)>>/g` of
 * src/converter.ts, as JavaScript's regular-expression engine performs it.
 *
 * The engine scans left to right. At each position it tries to match `<<`,
 * then the shortest run of characters that contains no line terminator,
 * then `>>`. On success the match is rewritten and scanning resumes after
 * it; on failure one character is copied and scanning resumes at the next
 * position.
 */
module Placeholders {

  import opened Wrappers

  /** The characters JavaScript's `.` does not match (ECMAScript LineTerminator). */
  predicate IsLineTerminator(c: char) {
    c == '\n' || c == '\r' || c == '\U{2028}' || c == '\U{2029}'
  }

  /** `<<` starts at index i of s. */
  predicate OpensAt(s: string, i: int) {
    0 <= i && i + 1 < |s| && s[i] == '<' && s[i + 1] == '<'
  }

  /** No occurrence of `<<` anywhere in s. */
  predicate NoOpener(s: string) {
    forall i :: 0 <= i < |s| ==> !OpensAt(s, i)
  }

  /**
   * `>>` at index k can end a capture that begins at index j: the capture
   * s[j..k] holds no line terminator.
   */
  predicate ClosesAt(s: string, j: int, k: int) {
    0 <= j <= k && k + 1 < |s| && s[k] == '>' && s[k + 1] == '>' &&
    forall m :: j <= m < k ==> !IsLineTerminator(s[m])
  }

  /**
   * The lazy `(.*?)>>` step: the first index k >= j at which a capture
   * begun at j can be closed, or None when a line terminator or the end of
   * the string comes first.
   */
  function FindClose(s: string, j: nat): (r: Option<nat>)
    requires j <= |s|
    ensures r.Some? ==> ClosesAt(s, j, r.value)
    ensures r.Some? ==> forall k :: j <= k < r.value ==> !ClosesAt(s, j, k)
    ensures r.None? ==> forall k :: !ClosesAt(s, j, k)
    decreases |s| - j
  {
    if j + 1 < |s| && s[j] == '>' && s[j + 1] == '>' then Some(j)
    else if j == |s| || IsLineTerminator(s[j]) then None
    else
      var r := FindClose(s, j + 1);
      assert forall k :: j + 1 <= k && ClosesAt(s, j, k) ==> ClosesAt(s, j + 1, k);
      r
  }

  /**
   * r is s with some `<` turned into `{` and some `>` into `}`, and every
   * other character kept in place.
   */
  predicate Relabels(s: string, r: string) {
    |r| == |s| &&
    forall i :: 0 <= i < |s| ==>
      r[i] == s[i] || (s[i] == '<' && r[i] == '{') || (s[i] == '>' && r[i] == '}')
  }

  lemma RelabelsConcat(s1: string, r1: string, s2: string, r2: string)
    requires Relabels(s1, r1) && Relabels(s2, r2)
    ensures Relabels(s1 + s2, r1 + r2)
  {
    forall i | 0 <= i < |s1 + s2|
      ensures (r1 + r2)[i] == (s1 + s2)[i] ||
              ((s1 + s2)[i] == '<' && (r1 + r2)[i] == '{') ||
              ((s1 + s2)[i] == '>' && (r1 + r2)[i] == '}')
    {
      if i >= |s1| {
        assert (s1 + s2)[i] == s2[i - |s1|] && (r1 + r2)[i] == r2[i - |s1|];
      }
    }
  }

  /**
   * replacePlaceholders: every `<<x>>` (x shortest, with no line
   * terminator) becomes `{{x}}`; everything else is copied. Only delimiter
   * characters change, one for one, so the length is preserved.
   */
  function ReplacePlaceholders(s: string): (r: string)
    ensures Relabels(s, r)
    decreases |s|
  {
    if |s| == 0 then ""
    else if OpensAt(s, 0) && FindClose(s, 2).Some? then
      var k := FindClose(s, 2).value;
      var rest := ReplacePlaceholders(s[k + 2..]);
      var capture := s[2..k];
      assert s == "<<" + capture + ">>" + s[k + 2..];
      RelabelsConcat("<<", "{{", capture, capture);
      RelabelsConcat("<<" + capture, "{{" + capture, ">>", "}}");
      RelabelsConcat("<<" + capture + ">>", "{{" + capture + "}}", s[k + 2..], rest);
      "{{" + capture + "}}" + rest
    else
      var rest := ReplacePlaceholders(s[1..]);
      assert s == [s[0]] + s[1..];
      RelabelsConcat([s[0]], [s[0]], s[1..], rest);
      [s[0]] + rest
  }

  /** A capture name the lazy match reads in full: no line terminator, and no `>>` ends early inside `x>>`. */
  predicate WholeCapture(x: string) {
    forall i :: 0 <= i < |x| ==>
      !IsLineTerminator(x[i]) && !(x[i] == '>' && (i + 1 == |x| || x[i + 1] == '>'))
  }

  /** A string with no `<<` is returned unchanged (text already in `{{x}}` form included). */
  lemma {:induction false} NoOpenerUnchanged(s: string)
    requires NoOpener(s)
    ensures ReplacePlaceholders(s) == s
    decreases |s|
  {
    if |s| > 0 {
      assert !OpensAt(s, 0);
      assert NoOpener(s[1..]) by {
        forall i | 0 <= i < |s[1..]| ensures !OpensAt(s[1..], i) {
          assert !OpensAt(s, i + 1);
        }
      }
      NoOpenerUnchanged(s[1..]);
      assert [s[0]] + s[1..] == s;
    }
  }

  /** NoOpenerUnchanged as an implication, for use where the premise is not known. */
  lemma NoOpenerCopied(s: string)
    ensures NoOpener(s) ==> ReplacePlaceholders(s) == s
  {
    if NoOpener(s) {
      NoOpenerUnchanged(s);
    }
  }

  /** A placeholder at the front is rewritten, and scanning resumes right after its `>>`. */
  lemma TranslatePlaceholder(x: string, rest: string)
    requires WholeCapture(x)
    ensures ReplacePlaceholders("<<" + x + ">>" + rest) == "{{" + x + "}}" + ReplacePlaceholders(rest)
  {
    var s := "<<" + x + ">>" + rest;
    var e := 2 + |x|;
    assert OpensAt(s, 0);
    assert s[2..e] == x;
    assert ClosesAt(s, 2, e);
    forall k | 2 <= k < e ensures !ClosesAt(s, 2, k) {
      assert s[k] == x[k - 2];
      assert !(x[k - 2] == '>' && (k - 1 == |x| || x[k - 1] == '>'));
      if k + 1 < e { assert s[k + 1] == x[k - 1]; } else { assert k - 1 == |x|; }
    }
    assert FindClose(s, 2) == Some(e);
    assert s[e + 2..] == rest;
  }

  /** A prefix with no `<` is copied as it is; the rest is translated on its own. */
  lemma {:induction false} PlainPrefix(t: string, rest: string)
    requires forall i :: 0 <= i < |t| ==> t[i] != '<'
    ensures ReplacePlaceholders(t + rest) == t + ReplacePlaceholders(rest)
    decreases |t|
  {
    if |t| > 0 {
      var s := t + rest;
      assert s[0] == t[0] && !OpensAt(s, 0);
      assert ReplacePlaceholders(s) == [s[0]] + ReplacePlaceholders(s[1..]);
      assert s[1..] == t[1..] + rest;
      PlainPrefix(t[1..], rest);
      calc {
        ReplacePlaceholders(s);
        [t[0]] + (t[1..] + ReplacePlaceholders(rest));
        ([t[0]] + t[1..]) + ReplacePlaceholders(rest);
        { assert [t[0]] + t[1..] == t; }
        t + ReplacePlaceholders(rest);
      }
    } else {
      assert t + rest == rest;
    }
  }

  /** The empty capture is still a placeholder: `<<>>` becomes `{{}}`. */
  lemma EmptyPlaceholder()
    ensures ReplacePlaceholders("<<>>") == "{{}}"
  {
    TranslatePlaceholder("", "");
    assert "<<" + "" + ">>" + "" == "<<>>";
  }

  /** A capture that would span a line terminator is not a placeholder: `<<a\nb>>` is copied unchanged. */
  lemma NewlineBlocksMatch()
    ensures ReplacePlaceholders("<<a\nb>>") == "<<a\nb>>"
  {
    var s := "<<a\nb>>";
    assert FindClose(s, 2).None? by {
      forall k ensures !ClosesAt(s, 2, k) {
        if 3 < k { assert IsLineTerminator(s[3]); }
      }
    }
    var t := s[1..];
    assert NoOpener(t) by {
      forall i | 0 <= i < |t| ensures !OpensAt(t, i) {}
    }
    NoOpenerUnchanged(t);
    assert [s[0]] + s[1..] == s;
  }
}
