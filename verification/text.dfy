/** The two Python string methods the subtitle encoder applies to cue text:
    `t.replace('-->', '->')` and `t.strip()` with no argument. */
module Text {

  /** Python's `str.isspace()` for one character: the characters `strip()`
      removes when called without an argument. */
  predicate IsSpace(c: char)
    ensures c == ' ' || c == '\t' || c == '\n' || c == '\r' ==> IsSpace(c)
  {
    c in Whitespace
  }

  const Whitespace: set<char> := {
    '\t', '\n', '\U{B}', '\U{C}', '\r', '\U{1C}', '\U{1D}', '\U{1E}', '\U{1F}', ' ',
    '\U{85}', '\U{A0}', '\U{1680}',
    '\U{2000}', '\U{2001}', '\U{2002}', '\U{2003}', '\U{2004}', '\U{2005}',
    '\U{2006}', '\U{2007}', '\U{2008}', '\U{2009}', '\U{200A}',
    '\U{2028}', '\U{2029}', '\U{202F}', '\U{205F}', '\U{3000}'
  }

  /** The cue-timing delimiter occurs in `t` starting at position `i`. */
  predicate ArrowAt(t: string, i: nat) {
    i + 3 <= |t| && t[i..i + 3] == "-->"
  }

  predicate ContainsArrow(t: string) {
    exists i :: 0 <= i < |t| && ArrowAt(t, i)
  }

  /** `t.replace('-->', '->')`: one left-to-right pass, each match replaced
      and scanning resumed after it, so matches never overlap. */
  function ReplaceArrow(t: string): (r: string)
    ensures |r| <= |t|
  {
    if |t| < 3 then t
    else if t[..3] == "-->" then "->" + ReplaceArrow(t[3..])
    else [t[0]] + ReplaceArrow(t[1..])
  }

  /** Text that holds the delimiter comes out shorter. */
  lemma {:induction false} ReplaceArrowShrinks(t: string)
    requires ContainsArrow(t)
    ensures |ReplaceArrow(t)| < |t|
  {
    var i :| 0 <= i < |t| && ArrowAt(t, i);
    if t[..3] != "-->" {
      assert i != 0;
      assert t[1..][i - 1..i + 2] == t[i..i + 3];
      assert ArrowAt(t[1..], i - 1);
      ReplaceArrowShrinks(t[1..]);
    }
  }

  /** Replacement leaves text alone exactly when there is nothing to replace. */
  lemma {:induction false} ReplaceArrowIdentity(t: string)
    ensures ReplaceArrow(t) == t <==> !ContainsArrow(t)
  {
    if ContainsArrow(t) {
      ReplaceArrowShrinks(t);
    } else if |t| >= 3 {
      assert !ArrowAt(t, 0);
      assert !ContainsArrow(t[1..]) by {
        if ContainsArrow(t[1..]) {
          var i :| 0 <= i < |t[1..]| && ArrowAt(t[1..], i);
          assert t[i + 1..i + 4] == t[1..][i..i + 3];
          assert ArrowAt(t, i + 1);
        }
      }
      ReplaceArrowIdentity(t[1..]);
    }
  }

  /** The single pass does not re-scan its own output: a dash before the
      delimiter survives and forms a new delimiter. */
  lemma ReplaceArrowSinglePass()
    ensures ReplaceArrow("--->") == "-->"
  {
    assert "--->"[2] == '-' != "-->"[2];
    assert "--->"[1..] == "-->";
    assert "-->"[..3] == "-->";
    assert "-->"[3..] == "";
  }

  /** `t.lstrip()`: drop the leading whitespace. */
  function TrimStart(t: string): (r: string)
    ensures |r| <= |t|
  {
    if t != [] && IsSpace(t[0]) then TrimStart(t[1..]) else t
  }

  /** `t.rstrip()`: drop the trailing whitespace. */
  function TrimEnd(t: string): (r: string)
    ensures |r| <= |t|
  {
    if t != [] && IsSpace(t[|t| - 1]) then TrimEnd(t[..|t| - 1]) else t
  }

  /** `lstrip()` keeps a suffix, removes only whitespace, and what it keeps
      does not start with whitespace. */
  lemma {:induction false} TrimStartSpec(t: string)
    ensures var r := TrimStart(t);
      r == t[|t| - |r|..]
      && (forall i :: 0 <= i < |t| - |r| ==> IsSpace(t[i]))
      && (r != [] ==> !IsSpace(r[0]))
  {
    if t != [] && IsSpace(t[0]) {
      TrimStartSpec(t[1..]);
      var r := TrimStart(t);
      forall i | 1 <= i < |t| - |r| ensures IsSpace(t[i]) {
        assert t[i] == t[1..][i - 1];
      }
    }
  }

  /** `rstrip()` keeps a prefix, removes only whitespace, and what it keeps
      does not end with whitespace. */
  lemma {:induction false} TrimEndSpec(t: string)
    ensures var r := TrimEnd(t);
      r == t[..|r|]
      && (forall i :: |r| <= i < |t| ==> IsSpace(t[i]))
      && (r != [] ==> !IsSpace(r[|r| - 1]))
  {
    if t != [] && IsSpace(t[|t| - 1]) {
      TrimEndSpec(t[..|t| - 1]);
      var r := TrimEnd(t);
      forall i | |r| <= i < |t| - 1 ensures IsSpace(t[i]) {
        assert t[i] == t[..|t| - 1][i];
      }
    }
  }

  /** `t.strip()`. */
  function Strip(t: string): (r: string)
    ensures |r| <= |t|
  {
    TrimEnd(TrimStart(t))
  }

  /** What `strip()` keeps is one contiguous slice of its input that neither
      starts nor ends with whitespace, and only whitespace is cut off on
      either side of it. */
  lemma StripSlice(t: string) returns (i: nat, j: nat)
    ensures i <= j <= |t| && Strip(t) == t[i..j]
    ensures Strip(t) != [] ==> !IsSpace(Strip(t)[0]) && !IsSpace(Strip(t)[|Strip(t)| - 1])
    ensures forall k :: 0 <= k < i ==> IsSpace(t[k])
    ensures forall k :: j <= k < |t| ==> IsSpace(t[k])
  {
    var s := TrimStart(t);
    var r := TrimEnd(s);
    TrimStartSpec(t);
    TrimEndSpec(s);
    i, j := |t| - |s|, |t| - |s| + |r|;
    assert s == t[i..];
    assert r == s[..|r|];
    assert r == t[i..j];
    forall k | j <= k < |t| ensures IsSpace(t[k]) {
      assert |r| <= k - i < |s|;
      assert t[k] == s[k - i];
    }
  }

  /** Stripping changes nothing exactly when there is no whitespace at either end. */
  lemma StripIdentity(t: string)
    ensures Strip(t) == t <==> (t == [] || (!IsSpace(t[0]) && !IsSpace(t[|t| - 1])))
  {
    var i, j := StripSlice(t);
  }

  lemma StripIdempotent(t: string)
    ensures Strip(Strip(t)) == Strip(t)
  {
    var i, j := StripSlice(t);
    StripIdentity(Strip(t));
  }

  /** The cue text both encoders emit: `t.replace('-->', '->').strip()`. */
  function Sanitize(t: string): (r: string)
    ensures |r| <= |t|
  {
    Strip(ReplaceArrow(t))
  }

  lemma SanitizeKeeps(t: string)
    requires Sanitize(t) == t
    ensures !ContainsArrow(t) && (t == [] || (!IsSpace(t[0]) && !IsSpace(t[|t| - 1])))
  {
    var r := ReplaceArrow(t);
    assert |r| == |t|;
    ReplaceArrowIdentity(t);
    if ContainsArrow(t) {
      ReplaceArrowShrinks(t);
    }
    assert r == t;
    StripIdentity(t);
  }

  lemma SanitizeClean(t: string)
    requires !ContainsArrow(t) && (t == [] || (!IsSpace(t[0]) && !IsSpace(t[|t| - 1])))
    ensures Sanitize(t) == t
  {
    ReplaceArrowIdentity(t);
    StripIdentity(t);
  }

  /** Clean text is kept as it is. */
  lemma SanitizeCleanExample()
    ensures Sanitize("A") == "A"
  {
    assert !IsSpace('A');
    SanitizeClean("A");
  }

  /** A delimiter inside the text loses one dash. */
  lemma SanitizeArrowExample()
    ensures Sanitize("B-->C") == "B->C"
  {
    assert ReplaceArrow("B-->C") == "B->C" by {
      assert "B-->C"[0] == 'B' != "-->"[0];
      assert "B-->C"[1..] == "-->C";
      assert "-->C"[..3] == "-->" && "-->C"[3..] == "C";
    }
    assert !IsSpace('B') && !IsSpace('C');
    StripIdentity("B->C");
  }

  /** Text comes through the encoder unchanged exactly when it holds no
      delimiter and has no whitespace at either end. */
  lemma SanitizeIdentity(t: string)
    ensures Sanitize(t) == t
            <==> !ContainsArrow(t) && (t == [] || (!IsSpace(t[0]) && !IsSpace(t[|t| - 1])))
  {
    if Sanitize(t) == t {
      SanitizeKeeps(t);
    }
    if !ContainsArrow(t) && (t == [] || (!IsSpace(t[0]) && !IsSpace(t[|t| - 1]))) {
      SanitizeClean(t);
    }
  }
}
