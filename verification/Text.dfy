/** Strings as the Go sources use them: ASCII case folding, white-space trimming,
    splitting. Every function works character by character. */
module Text {

  function LowerChar(c: char): char {
    if 'A' <= c <= 'Z' then c - 'A' + 'a' else c
  }

  function ToLower(s: string): (r: string)
    ensures |r| == |s|
  {
    if s == "" then "" else [LowerChar(s[0])] + ToLower(s[1..])
  }

  lemma {:induction false} LowerAt(s: string, k: nat)
    requires k < |s|
    ensures ToLower(s)[k] == LowerChar(s[k])
  {
    if k > 0 { LowerAt(s[1..], k - 1); }
  }

  predicate IsLower(s: string) { ToLower(s) == s }

  /** The Unicode White_Space characters, which is what strings.TrimSpace strips. */
  predicate IsSpace(c: char) {
    || '\t' <= c <= '\r' || c == ' ' || c == '\U{0085}' || c == '\U{00A0}' || c == '\U{1680}'
    || '\U{2000}' <= c <= '\U{200A}' || c == '\U{2028}' || c == '\U{2029}'
    || c == '\U{202F}' || c == '\U{205F}' || c == '\U{3000}'
  }

  function TrimLeft(s: string): string { if s != "" && IsSpace(s[0]) then TrimLeft(s[1..]) else s }

  function TrimRight(s: string): string { if s != "" && IsSpace(s[|s| - 1]) then TrimRight(s[..|s| - 1]) else s }

  function TrimSpace(s: string): string { TrimRight(TrimLeft(s)) }

  lemma {:induction false} LeftShape(s: string)
    ensures var r := TrimLeft(s);
            && |r| <= |s| && r == s[|s| - |r|..] && (r != "" ==> !IsSpace(r[0]))
            && forall k :: 0 <= k < |s| - |r| ==> IsSpace(s[k])
  {
    if s != "" && IsSpace(s[0]) {
      LeftShape(s[1..]);
      var r := TrimLeft(s);
      assert r == TrimLeft(s[1..]) == s[1..][|s| - 1 - |r|..];
      forall k | 0 < k < |s| - |r| ensures IsSpace(s[k]) { assert s[k] == s[1..][k - 1]; }
    }
  }

  lemma {:induction false} RightShape(s: string)
    ensures var r := TrimRight(s);
            && |r| <= |s| && r == s[..|r|] && (r != "" ==> !IsSpace(r[|r| - 1]))
            && forall k :: |r| <= k < |s| ==> IsSpace(s[k])
  {
    if s != "" && IsSpace(s[|s| - 1]) { RightShape(s[..|s| - 1]); }
  }

  predicate Trimmed(s: string) { s == "" || (!IsSpace(s[0]) && !IsSpace(s[|s| - 1])) }

  function Contains(s: string, c: char): bool { exists k :: 0 <= k < |s| && s[k] == c }

  /** The first occurrence from i on, or the length. */
  function IndexFrom(s: string, c: char, i: nat): (r: nat)
    requires i <= |s|
    ensures i <= r <= |s| && (r < |s| ==> s[r] == c) && forall k :: i <= k < r ==> s[k] != c
    decreases |s| - i
  {
    if i == |s| || s[i] == c then i else IndexFrom(s, c, i + 1)
  }

  function IndexOf(s: string, c: char): (r: nat)
    ensures r <= |s| && (r < |s| ==> s[r] == c) && forall k :: 0 <= k < r ==> s[k] != c
  {
    IndexFrom(s, c, 0)
  }

  predicate HasSuffix(s: string, p: string) { |p| <= |s| && s[|s| - |p|..] == p }

  lemma {:induction false} LowerIdempotent(s: string)
    ensures IsLower(ToLower(s))
  {
    if s != "" { LowerIdempotent(s[1..]); }
  }

  lemma {:induction false} LowerConcat(s: string, t: string)
    ensures ToLower(s + t) == ToLower(s) + ToLower(t)
  {
    if s == "" {
      assert s + t == t;
    } else {
      LowerConcat(s[1..], t);
      assert (s + t)[1..] == s[1..] + t;
    }
  }

  predicate LowerText(t: string) { forall k :: 0 <= k < |t| ==> LowerChar(t[k]) == t[k] }

  lemma IsLowerText(t: string)
    ensures IsLower(t) <==> LowerText(t)
  {
    forall k | 0 <= k < |t| ensures ToLower(t)[k] == LowerChar(t[k]) { LowerAt(t, k); }
  }

  /** The same text but for the case of its letters. */
  predicate SameName(a: string, b: string) { |a| == |b| && forall k :: 0 <= k < |a| ==> LowerChar(a[k]) == LowerChar(b[k]) }

  lemma LowerSame(a: string, b: string)
    ensures ToLower(a) == ToLower(b) <==> SameName(a, b)
  {
    forall k | 0 <= k < |a| ensures ToLower(a)[k] == LowerChar(a[k]) { LowerAt(a, k); }
    forall k | 0 <= k < |b| ensures ToLower(b)[k] == LowerChar(b[k]) { LowerAt(b, k); }
    if SameName(a, b) { assert forall k :: 0 <= k < |a| ==> ToLower(a)[k] == ToLower(b)[k]; }
    if ToLower(a) == ToLower(b) {
      forall k | 0 <= k < |a| ensures LowerChar(a[k]) == LowerChar(b[k]) { assert ToLower(a)[k] == ToLower(b)[k]; }
    }
  }

  /** Trimming changes nothing exactly on strings with no white space at either end. */
  lemma TrimFixpoint(s: string)
    ensures TrimSpace(s) == s <==> Trimmed(s)
    ensures Trimmed(TrimSpace(s))
  {
    LeftShape(s);
    var l := TrimLeft(s);
    RightShape(l);
    var r := TrimRight(l);
    if r != "" { assert r[0] == l[0]; }
  }

  lemma TrimLower(s: string)
    ensures Trimmed(s) ==> Trimmed(ToLower(s))
  {
    if s != "" {
      LowerAt(s, 0);
      LowerAt(s, |s| - 1);
    }
  }

  // ---- splitting ---------------------------------------------------------------------------------

  /** strings.Split by one character: one part more than there are separators. */
  function SplitOn(s: string, c: char): (parts: seq<string>)
    ensures parts != []
    decreases |s|
  {
    var i := IndexOf(s, c);
    if i == |s| then [s] else [s[..i]] + SplitOn(s[i + 1..], c)
  }

  /** s is a, a separator, and b. */
  predicate Joined(s: string, a: string, c: char, b: string) {
    && |s| == |a| + 1 + |b| && s[|a|] == c
    && (forall k :: 0 <= k < |a| ==> s[k] == a[k])
    && (forall k :: 0 <= k < |b| ==> s[|a| + 1 + k] == b[k])
  }

  lemma CutLast(s: string, a: string, c: char, b: string)
    requires Joined(s, a, c, b) && IndexOf(a, c) == |a|
    ensures IndexOf(s, c) == |a| && s[..|a|] == a && s[|a| + 1..] == b
  {
  }

  lemma CutInner(s: string, a: string, c: char, b: string, i: nat)
    requires Joined(s, a, c, b) && i == IndexOf(a, c) < |a|
    ensures IndexOf(s, c) == i && s[..i] == a[..i]
  {
  }

  lemma RestJoined(s: string, a: string, c: char, b: string, i: nat)
    requires Joined(s, a, c, b) && i < |a|
    ensures Joined(s[i + 1..], a[i + 1..], c, b)
  {
    var t := s[i + 1..];
    forall k | 0 <= k < |t| ensures t[k] == s[i + 1 + k] {}
  }

  lemma SplitCut(s: string, c: char)
    requires IndexOf(s, c) < |s|
    ensures SplitOn(s, c) == [s[..IndexOf(s, c)]] + SplitOn(s[IndexOf(s, c) + 1..], c)
  {
  }

  lemma Prepended(ps: seq<string>, full: seq<string>, x: string, p: seq<string>, q: seq<string>)
    requires ps == [x] + (p + q) && full == [x] + p
    ensures ps == full + q
  {
  }

  lemma {:induction false} SplitOfJoined(s: string, a: string, c: char, b: string)
    requires Joined(s, a, c, b)
    ensures SplitOn(s, c) == SplitOn(a, c) + SplitOn(b, c)
    decreases |a|
  {
    var i := IndexOf(a, c);
    if i == |a| {
      CutLast(s, a, c, b);
      SplitCut(s, c);
    } else {
      CutInner(s, a, c, b, i);
      RestJoined(s, a, c, b, i);
      SplitCut(s, c);
      SplitCut(a, c);
      SplitOfJoined(s[i + 1..], a[i + 1..], c, b);
      Prepended(SplitOn(s, c), SplitOn(a, c), a[..i], SplitOn(a[i + 1..], c), SplitOn(b, c));
    }
  }

  /** The parts of two texts with a separator between them are the parts of both. */
  lemma SplitJoined(a: string, b: string, c: char)
    ensures SplitOn(a + [c] + b, c) == SplitOn(a, c) + SplitOn(b, c)
  {
    assert Joined(a + [c] + b, a, c, b);
    SplitOfJoined(a + [c] + b, a, c, b);
  }
}
