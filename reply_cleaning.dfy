/** Cleaning of the language model's raw reply before it is parsed as JSON:
    every markdown fence "```json" or "```" is removed, then surrounding white space is trimmed. */
module ReplyCleaning {

  const Fence: string := "```"
  const JsonFence: string := "```json"

  predicate StartsWith(s: string, prefix: string) {
    |prefix| <= |s| && s[..|prefix|] == prefix
  }

  /** A plain fence "```" begins at position i of t. */
  predicate FenceAt(t: string, i: int) {
    0 <= i && i + 3 <= |t| && t[i] == '`' && t[i + 1] == '`' && t[i + 2] == '`'
  }

  /** No three consecutive backticks anywhere in t. */
  predicate NoFence(t: string) {
    forall i :: 0 <= i < |t| ==> !FenceAt(t, i)
  }

  /** The code points the ECMAScript String.prototype.trim removes: the WhiteSpace
      production (tab, vertical tab, form feed, space, no-break space, the byte order mark
      and the other space separators of category Zs) and the LineTerminator production
      (line feed, carriage return, line and paragraph separator). */
  predicate IsTrimmable(c: char) {
    c == '\t' || c == '\n' || c == '\U{B}' || c == '\U{C}' || c == '\r' || c == ' '
    || c == '\U{A0}' || c == '\U{1680}' || ('\U{2000}' <= c <= '\U{200A}')
    || c == '\U{2028}' || c == '\U{2029}' || c == '\U{202F}' || c == '\U{205F}'
    || c == '\U{3000}' || c == '\U{FEFF}'
  }

  /** `s.replace(/```json|```/g, "")`: scanning left to right, at each position the
      alternative "```json" is tried before "```"; a match is dropped and the scan resumes
      just after it, any other character is kept. */
  function StripFences(s: string): (r: string)
    ensures |r| <= |s|
    decreases |s|
  {
    if StartsWith(s, JsonFence) then StripFences(s[|JsonFence|..])
    else if StartsWith(s, Fence) then StripFences(s[|Fence|..])
    else if s == [] then []
    else [s[0]] + StripFences(s[1..])
  }

  /** `s.trimStart()`: the longest suffix of s that does not begin with white space. */
  function TrimStart(s: string): (r: string)
    ensures |r| <= |s| && r == s[|s| - |r|..]
    ensures r == [] || !IsTrimmable(r[0])
    ensures forall i :: 0 <= i < |s| - |r| ==> IsTrimmable(s[i])
  {
    if s != [] && IsTrimmable(s[0]) then TrimStart(s[1..]) else s
  }

  /** `s.trimEnd()`: the longest prefix of s that does not end with white space. */
  function TrimEnd(s: string): (r: string)
    ensures |r| <= |s| && r == s[..|r|]
    ensures r == [] || !IsTrimmable(r[|r| - 1])
    ensures forall i :: |r| <= i < |s| ==> IsTrimmable(s[i])
  {
    if s != [] && IsTrimmable(s[|s| - 1]) then TrimEnd(s[..|s| - 1]) else s
  }

  /** `s.trim()`: the slice of s left once white space is removed from both ends. */
  function Trim(s: string): (r: string)
    ensures r == [] || (!IsTrimmable(r[0]) && !IsTrimmable(r[|r| - 1]))
    ensures var lo := |s| - |TrimStart(s)|;
      lo + |r| <= |s| && r == s[lo..lo + |r|]
      && (forall i :: 0 <= i < lo ==> IsTrimmable(s[i]))
      && (forall i :: lo + |r| <= i < |s| ==> IsTrimmable(s[i]))
  {
    TrimEnd(TrimStart(s))
  }

  /** The cleaned reply: `raw.replace(/```json|```/g, "").trim()`. */
  function Clean(raw: string): string {
    Trim(StripFences(raw))
  }

  // ---------------------------------------------------------------------------
  // Fence stripping

  lemma StripFencesHeadNotFence(s: string)
    requires s != [] && s[0] != '`'
    ensures !StartsWith(s, JsonFence) && !StartsWith(s, Fence)
  {
    assert |Fence| <= |s| ==> s[..|Fence|][0] == s[0];
    assert |JsonFence| <= |s| ==> s[..|JsonFence|][0] == s[0];
  }

  lemma StripFencesHead(s: string)
    requires s != [] && s[0] != '`'
    ensures StripFences(s) != [] && StripFences(s)[0] == s[0]
  {
    StripFencesHeadNotFence(s);
  }

  /** When the text does not open with a fence, its first character is kept and starts no
      fence in the result: a leading run of one or two backticks is followed by a kept
      character that is not a backtick. */
  lemma KeptHeadStartsNoFence(s: string)
    requires s != [] && !StartsWith(s, JsonFence) && !StartsWith(s, Fence)
    ensures StripFences(s) == [s[0]] + StripFences(s[1..])
    ensures !FenceAt(StripFences(s), 0)
  {
    var r, rest := StripFences(s), StripFences(s[1..]);
    assert r == [s[0]] + rest;
    if s[0] == '`' {
      if |s| >= 2 && s[1] == '`' {
        var t := s[1..];
        assert !StartsWith(t, JsonFence) && !StartsWith(t, Fence) by {
          if |t| >= 3 { assert t[..3][1] == t[1] == s[2]; }
          if |t| >= 7 { assert t[..7][1] == t[1]; }
        }
        assert rest == ['`'] + StripFences(t[1..]);
        if t[1..] != [] {
          StripFencesHead(t[1..]);
        }
      } else if s[1..] != [] {
        StripFencesHead(s[1..]);
      }
    }
  }

  /** After stripping, no "```" is left anywhere: every run of backticks is consumed three
      at a time, and what is left of a run (one or two backticks) is followed by a kept
      character that is not a backtick. */
  lemma {:induction false} StripFencesLeavesNoFence(s: string)
    ensures NoFence(StripFences(s))
    decreases |s|
  {
    if StartsWith(s, JsonFence) {
      StripFencesLeavesNoFence(s[|JsonFence|..]);
    } else if StartsWith(s, Fence) {
      StripFencesLeavesNoFence(s[|Fence|..]);
    } else if s != [] {
      var r, rest := StripFences(s), StripFences(s[1..]);
      StripFencesLeavesNoFence(s[1..]);
      KeptHeadStartsNoFence(s);
      forall i | 0 <= i < |r|
        ensures !FenceAt(r, i)
      {
        if i > 0 {
          assert !FenceAt(rest, i - 1);
        }
      }
    }
  }

  /** Text that holds no "```" has nothing to strip. */
  lemma {:induction false} StripFencesOfFenceFree(t: string)
    requires NoFence(t)
    ensures StripFences(t) == t
    decreases |t|
  {
    if t != [] {
      assert !FenceAt(t, 0);
      assert !StartsWith(t, JsonFence) && !StartsWith(t, Fence) by {
        if |t| >= 3 { assert t[..3][0] == t[0] && t[..3][1] == t[1] && t[..3][2] == t[2]; }
      }
      NoFenceOfSlice(t, 1, |t|);
      assert t[1..|t|] == t[1..];
      StripFencesOfFenceFree(t[1..]);
    }
  }

  /** A reply holding no backtick at all loses nothing to fence stripping. */
  lemma StripFencesWithoutBackticks(s: string)
    requires '`' !in s
    ensures StripFences(s) == s
  {
    assert NoFence(s) by {
      forall i | 0 <= i < |s|
        ensures !FenceAt(s, i)
      {
        assert s[i] in s;
      }
    }
    StripFencesOfFenceFree(s);
  }

  /** Text holding no backtick is kept verbatim, whatever follows it. */
  lemma {:induction false} StripFencesKeepsPlainPrefix(b: string, t: string)
    requires '`' !in b
    ensures StripFences(b + t) == b + StripFences(t)
    decreases |b|
  {
    if b != [] {
      assert b[0] in b;
      StripFencesHead(b + t);
      assert (b + t)[0] == b[0] && (b + t)[1..] == b[1..] + t;
      assert !StartsWith(b + t, JsonFence) && !StartsWith(b + t, Fence) by {
        StripFencesHeadNotFence(b + t);
      }
      StripFencesKeepsPlainPrefix(b[1..], t);
      assert b == [b[0]] + b[1..];
    } else {
      assert b + t == t;
    }
  }

  /** The first fence of the text, when it is "```json", is removed together with its
      `json` tag, and the scan resumes right after it. */
  lemma StripFencesDropsJsonFence(b: string, t: string)
    requires '`' !in b
    ensures StripFences(b + JsonFence + t) == b + StripFences(t)
  {
    var u := JsonFence + t;
    assert b + JsonFence + t == b + u;
    StripFencesKeepsPlainPrefix(b, u);
    assert u[..|JsonFence|] == JsonFence && u[|JsonFence|..] == t;
  }

  /** A "```" followed by text that does not begin with `json` matches only the plain
      alternative. */
  lemma PlainFenceOnly(t: string)
    requires !StartsWith(t, "json")
    ensures var u := Fence + t; StartsWith(u, Fence) && !StartsWith(u, JsonFence) && u[|Fence|..] == t
  {
    var u := Fence + t;
    assert u[..|Fence|] == Fence;
    if |t| >= 4 {
      assert t[..4] == u[..|JsonFence|][3..];
    }
  }

  /** The first fence of the text, when it is a "```" not followed by `json`, is removed
      alone: whatever follows it is scanned again. */
  lemma StripFencesDropsFence(b: string, t: string)
    requires '`' !in b
    requires !StartsWith(t, "json")
    ensures StripFences(b + Fence + t) == b + StripFences(t)
  {
    var u := Fence + t;
    assert b + Fence + t == b + u;
    StripFencesKeepsPlainPrefix(b, u);
    PlainFenceOnly(t);
  }

  /** Fence stripping removes only characters of the fences: any other character occurs
      exactly as often in the result as in the input. */
  lemma {:induction false} StripFencesKeepsOtherCharacters(s: string, c: char)
    requires c !in JsonFence
    ensures multiset(StripFences(s))[c] == multiset(s)[c]
    decreases |s|
  {
    if StartsWith(s, JsonFence) {
      assert s == s[..|JsonFence|] + s[|JsonFence|..];
      assert multiset(s[..|JsonFence|])[c] == 0;
      StripFencesKeepsOtherCharacters(s[|JsonFence|..], c);
    } else if StartsWith(s, Fence) {
      assert s == s[..|Fence|] + s[|Fence|..];
      assert multiset(s[..|Fence|])[c] == 0 by {
        assert c !in s[..|Fence|];
      }
      StripFencesKeepsOtherCharacters(s[|Fence|..], c);
    } else if s != [] {
      assert s == [s[0]] + s[1..];
      StripFencesKeepsOtherCharacters(s[1..], c);
    }
  }

  // ---------------------------------------------------------------------------
  // Trimming

  lemma NoFenceOfSlice(t: string, lo: int, hi: int)
    requires NoFence(t) && 0 <= lo <= hi <= |t|
    ensures NoFence(t[lo..hi])
  {
    forall i | 0 <= i < hi - lo
      ensures !FenceAt(t[lo..hi], i)
    {
      assert !FenceAt(t, lo + i);
    }
  }

  /** Trimming twice is trimming once. */
  lemma TrimIdempotent(s: string)
    ensures Trim(Trim(s)) == Trim(s)
  {
    var r := Trim(s);
    assert TrimStart(r) == r;
    assert TrimEnd(r) == r;
  }

  // ---------------------------------------------------------------------------
  // The cleaned reply

  /** Trimming cannot create a fence: it only cuts text off the two ends. */
  lemma NoFenceAfterTrim(t: string)
    requires NoFence(t)
    ensures NoFence(Trim(t))
  {
    var u := TrimStart(t);
    NoFenceOfSlice(t, |t| - |u|, |t|);
    assert t[|t| - |u|..|t|] == u;
    var v := TrimEnd(u);
    NoFenceOfSlice(u, 0, |v|);
    assert u[0..|v|] == v;
  }

  /** No fence survives cleaning. */
  lemma CleanLeavesNoFence(raw: string)
    ensures NoFence(Clean(raw))
  {
    StripFencesLeavesNoFence(raw);
    NoFenceAfterTrim(StripFences(raw));
  }

  /** Cleaning an already cleaned reply changes nothing. */
  lemma CleanIdempotent(raw: string)
    ensures Clean(Clean(raw)) == Clean(raw)
  {
    var once := Clean(raw);
    CleanLeavesNoFence(raw);
    StripFencesOfFenceFree(once);
    TrimIdempotent(StripFences(raw));
  }

  /** A reply holding no backtick is returned merely trimmed. */
  lemma CleanWithoutBackticks(raw: string)
    requires '`' !in raw
    ensures Clean(raw) == Trim(raw)
  {
    StripFencesWithoutBackticks(raw);
  }

  lemma StripFencedBody()
    ensures StripFences("```json\n{}\n```") == "\n{}\n"
  {
    var body := "\n{}\n";
    var raw := JsonFence + (body + Fence);
    assert raw == "```json\n{}\n```";
    assert StartsWith(raw, JsonFence) && raw[|JsonFence|..] == body + Fence;
    assert '`' !in body;
    StripFencesKeepsPlainPrefix(body, Fence);
    assert StartsWith(Fence, Fence) && Fence[|Fence|..] == [];
    assert body + [] == body;
  }

  lemma TrimLineBreaks()
    ensures Trim("\n{}\n") == "{}"
  {
    var s, t, u := "\n{}\n", "{}\n", "{}";
    assert s[0] == '\n' && s[1..] == t;
    assert t[0] == '{' && !IsTrimmable(t[0]);
    assert TrimStart(t) == t;
    assert TrimStart(s) == t;
    assert t[2] == '\n' && t[..2] == u;
    assert u[1] == '}' && !IsTrimmable(u[1]);
    assert TrimEnd(u) == u;
    assert TrimEnd(t) == u;
  }

  /** A reply wrapped in a json fence, with line breaks around the object, comes out as the
      bare object. */
  lemma CleanFencedReply()
    ensures Clean("```json\n{}\n```") == "{}"
  {
    StripFencedBody();
    TrimLineBreaks();
  }
}
