/** The few pieces of Python's `str` behaviour the sender relies on:
    `strip()`, `startswith`, the substring test `p in s`, and joining lines with "\n". */
module Text {

  /** Python's `str.isspace()` for a single character. */
  predicate IsSpace(c: char)
  {
    ('\U{9}' <= c <= '\U{D}') || ('\U{1C}' <= c <= '\U{20}') || c == '\U{85}' || c == '\U{A0}'
    || c == '\U{1680}' || ('\U{2000}' <= c <= '\U{200A}') || c == '\U{2028}' || c == '\U{2029}'
    || c == '\U{202F}' || c == '\U{205F}' || c == '\U{3000}'
  }

  /** No whitespace at either end. */
  predicate Stripped(s: string)
  {
    s == [] || (!IsSpace(s[0]) && !IsSpace(s[|s| - 1]))
  }

  /** `s.lstrip()`: drops the leading whitespace and nothing else. */
  function TrimStart(s: string): (r: string)
    ensures |r| <= |s|
    ensures r == [] || !IsSpace(r[0])
  {
    if |s| > 0 && IsSpace(s[0]) then TrimStart(s[1..]) else s
  }

  /** What `lstrip()` keeps is the end of the text, and what it drops is whitespace. */
  lemma {:induction false} TrimStartSuffix(s: string)
    ensures TrimStart(s) == s[|s| - |TrimStart(s)|..]
    ensures forall k :: 0 <= k < |s| - |TrimStart(s)| ==> IsSpace(s[k])
    decreases |s|
  {
    if |s| > 0 && IsSpace(s[0]) {
      TrimStartSuffix(s[1..]);
      assert s[1..][|s| - 1 - |TrimStart(s[1..])|..] == s[|s| - |TrimStart(s)|..];
      forall k | 1 <= k < |s| - |TrimStart(s)| ensures IsSpace(s[k]) {
        assert s[k] == s[1..][k - 1];
      }
    }
  }

  /** `s.rstrip()`: drops the trailing whitespace and nothing else. */
  function TrimEnd(s: string): (r: string)
    ensures |r| <= |s| && r == s[..|r|]
    ensures r == [] || !IsSpace(r[|r| - 1])
  {
    if |s| > 0 && IsSpace(s[|s| - 1]) then TrimEnd(s[..|s| - 1]) else s
  }

  /** What `rstrip()` drops is whitespace. */
  lemma {:induction false} TrimEndSpaces(s: string)
    ensures forall k :: |TrimEnd(s)| <= k < |s| ==> IsSpace(s[k])
    decreases |s|
  {
    if |s| > 0 && IsSpace(s[|s| - 1]) {
      TrimEndSpaces(s[..|s| - 1]);
      forall k | |TrimEnd(s)| <= k < |s| - 1 ensures IsSpace(s[k]) {
        assert s[k] == s[..|s| - 1][k];
      }
    }
  }

  /** `s.strip()`. */
  function Strip(s: string): (r: string)
    ensures Stripped(r)
    ensures Stripped(s) ==> r == s
  {
    TrimEnd(TrimStart(s))
  }

  /** `s.startswith(p)`. */
  predicate StartsWith(s: string, p: string)
  {
    |p| <= |s| && forall i :: 0 <= i < |p| ==> s[i] == p[i]
  }

  /** Python's substring test `p in s`. */
  predicate Contains(s: string, p: string)
    decreases |s|
  {
    StartsWith(s, p) || (|s| > 0 && Contains(s[1..], p))
  }

  /** `"\n".join(lines)`. */
  function JoinLines(lines: seq<string>): string
    decreases |lines|
  {
    if |lines| == 0 then ""
    else if |lines| == 1 then lines[0]
    else JoinLines(lines[..|lines| - 1]) + "\n" + lines[|lines| - 1]
  }

  /** Every line followed by "\n", as `response += line + "\n"` builds it. */
  function Terminated(lines: seq<string>): string
    decreases |lines|
  {
    if lines == [] then "" else Terminated(lines[..|lines| - 1]) + lines[|lines| - 1] + "\n"
  }

  /** `response += line + "\n"`. */
  lemma TerminatedSnoc(lines: seq<string>, line: string)
    ensures Terminated(lines + [line]) == Terminated(lines) + line + "\n"
  {
    assert (lines + [line])[..|lines|] == lines;
  }

  /** Lines that `strip()` leaves unchanged and that are not empty. */
  predicate SolidLines(lines: seq<string>)
  {
    forall i :: 0 <= i < |lines| ==> lines[i] != "" && Stripped(lines[i])
  }

  lemma SolidSnoc(lines: seq<string>, line: string)
    requires SolidLines(lines) && line != "" && Stripped(line)
    ensures SolidLines(lines + [line])
  {
    var all := lines + [line];
    forall j | 0 <= j < |all| ensures all[j] != "" && Stripped(all[j]) {
      if j < |lines| {
        assert all[j] == lines[j];
      }
    }
  }

  /** How many whitespace characters `strip()` takes off the front of `s`. */
  function LeadingSpace(s: string): nat
  {
    |s| - |TrimStart(s)|
  }

  /** `strip()` takes off whitespace at the two ends and keeps everything in between. */
  lemma StripRemovesOnlySpace(s: string)
    ensures var r, i := Strip(s), LeadingSpace(s);
      && i + |r| <= |s|
      && r == s[i..i + |r|]
      && (forall k :: 0 <= k < i ==> IsSpace(s[k]))
      && (forall k :: i + |r| <= k < |s| ==> IsSpace(s[k]))
  {
    var t := TrimStart(s);
    TrimStartSuffix(s);
    var r := TrimEnd(t);
    TrimEndSpaces(t);
    var i := |s| - |t|;
    assert s[i..i + |r|] == t[..|r|];
    forall k | i + |r| <= k < |s| ensures IsSpace(s[k]) {
      assert s[k] == t[k - i];
    }
  }

  lemma {:induction false} ContainsOfSuffix(s: string, k: nat, p: string)
    requires k <= |s|
    requires Contains(s[k..], p)
    ensures Contains(s, p)
    decreases k
  {
    if k > 0 {
      assert s[1..][k - 1..] == s[k..];
      ContainsOfSuffix(s[1..], k - 1, p);
    }
  }

  lemma {:induction false} ContainsOfPrefix(s: string, k: nat, p: string)
    requires k <= |s|
    requires Contains(s[..k], p)
    ensures Contains(s, p)
    decreases k
  {
    if StartsWith(s[..k], p) {
      assert s[..|p|] == s[..k][..|p|];
    } else {
      assert s[..k][1..] == s[1..][..k - 1];
      ContainsOfPrefix(s[1..], k - 1, p);
    }
  }

  /** A substring of the stripped text is a substring of the text itself. */
  lemma ContainsStripped(s: string, p: string)
    requires Contains(Strip(s), p)
    ensures Contains(s, p)
  {
    var t := TrimStart(s);
    TrimStartSuffix(s);
    ContainsOfPrefix(t, |Strip(s)|, p);
    ContainsOfSuffix(s, |s| - |t|, p);
  }

  /** A pattern without "\n" occurs in `a + "\n" + b` exactly when it occurs in `a` or in `b`. */
  lemma {:induction false} ContainsAcrossNewline(a: string, b: string, p: string)
    requires '\n' !in p
    ensures Contains(a + "\n" + b, p) <==> Contains(a, p) || Contains(b, p)
    decreases |a|
  {
    var s := a + "\n" + b;
    PrefixStopsAtNewline(a, b, p);
    if Contains(a, p) {
      assert s[..|a|] == a;
      ContainsOfPrefix(s, |a|, p);
    }
    if Contains(b, p) {
      assert s[|a| + 1..] == b;
      ContainsOfSuffix(s, |a| + 1, p);
    }
    if Contains(s, p) {
      if StartsWith(s, p) {
        if |p| <= |a| {
          assert a[..|p|] == s[..|p|];
        }
      } else if a == [] {
        assert s[1..] == b;
      } else {
        assert s[1..] == a[1..] + "\n" + b;
        ContainsAcrossNewline(a[1..], b, p);
      }
    }
  }

  /** A prefix of `a + "\n" + b` longer than `a` holds the "\n". */
  lemma PrefixStopsAtNewline(a: string, b: string, p: string)
    ensures StartsWith(a + "\n" + b, p) && '\n' !in p ==> |p| <= |a|
  {
    if StartsWith(a + "\n" + b, p) && |p| > |a| {
      assert p[|a|] == (a + "\n" + b)[|a|];
    }
  }

  /** A non-empty pattern without "\n" occurs in the joined text exactly when it occurs in one line. */
  lemma {:induction false} ContainsJoinLines(lines: seq<string>, p: string)
    requires '\n' !in p && p != ""
    ensures Contains(JoinLines(lines), p) <==> exists i :: 0 <= i < |lines| && Contains(lines[i], p)
    decreases |lines|
  {
    if |lines| == 0 {
    } else if |lines| == 1 {
      assert JoinLines(lines) == lines[0];
    } else {
      var init, last := lines[..|lines| - 1], lines[|lines| - 1];
      ContainsAcrossNewline(JoinLines(init), last, p);
      ContainsJoinLines(init, p);
      if exists i :: 0 <= i < |lines| && Contains(lines[i], p) {
        var i :| 0 <= i < |lines| && Contains(lines[i], p);
        if i < |lines| - 1 {
          assert init[i] == lines[i];
        }
      }
      if exists i :: 0 <= i < |init| && Contains(init[i], p) {
        var i :| 0 <= i < |init| && Contains(init[i], p);
        assert lines[i] == init[i];
      }
    }
  }

  /** Joining non-empty stripped lines gives a non-empty stripped text. */
  lemma {:induction false} JoinLinesStripped(lines: seq<string>)
    requires |lines| > 0 && SolidLines(lines)
    ensures JoinLines(lines) != "" && Stripped(JoinLines(lines))
    decreases |lines|
  {
    if |lines| > 1 {
      var init := lines[..|lines| - 1];
      assert SolidLines(init) by {
        forall i | 0 <= i < |init| ensures init[i] != "" && Stripped(init[i]) {
          assert init[i] == lines[i];
        }
      }
      JoinLinesStripped(init);
      var j := JoinLines(init);
      var last := lines[|lines| - 1];
      assert (j + "\n" + last)[0] == j[0];
      assert (j + "\n" + last)[|j + "\n" + last| - 1] == last[|last| - 1];
    }
  }

  /** `(line + "\n" + ...).strip()` of non-empty stripped lines is `"\n".join(lines)`. */
  lemma {:induction false} StripTerminated(lines: seq<string>)
    requires SolidLines(lines)
    ensures Strip(Terminated(lines)) == JoinLines(lines)
  {
    if lines != [] {
      TerminatedIsJoinPlusNewline(lines);
      JoinLinesStripped(lines);
      var j := JoinLines(lines);
      var s := j + "\n";
      assert TrimStart(s) == s;
      assert s[..|s| - 1] == j;
      assert TrimEnd(s) == TrimEnd(j);
    }
  }

  lemma {:induction false} TerminatedIsJoinPlusNewline(lines: seq<string>)
    requires lines != []
    ensures Terminated(lines) == JoinLines(lines) + "\n"
    decreases |lines|
  {
    if |lines| > 1 {
      TerminatedIsJoinPlusNewline(lines[..|lines| - 1]);
    } else {
      assert lines[..0] == [];
    }
  }
}
