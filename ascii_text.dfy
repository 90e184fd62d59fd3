/** The pieces of Python's `str` that `fullname` relies on, restricted to ASCII:
    `isspace`, `upper`, `lower`, `capitalize`, `split()` without arguments and
    `' '.join`. Characters outside ASCII are left unchanged by the case maps and
    never count as whitespace. */
module AsciiText {

  /** `str.isspace` on ASCII: tab, line feed, vertical tab, form feed, carriage
      return, the separators 0x1C..0x1F, and the space itself. */
  predicate IsSpace(c: char) {
    c == ' ' || 9 <= c as int <= 13 || 28 <= c as int <= 31
  }

  predicate IsUpper(c: char) { 'A' <= c <= 'Z' }

  predicate IsLower(c: char) { 'a' <= c <= 'z' }

  function UpperChar(c: char): (u: char)
    ensures !IsLower(u)
    ensures IsSpace(u) == IsSpace(c)
  {
    if IsLower(c) then (c as int - 32) as char else c
  }

  function LowerChar(c: char): (l: char)
    ensures !IsUpper(l)
    ensures IsSpace(l) == IsSpace(c)
  {
    if IsUpper(c) then (c as int + 32) as char else c
  }

  /** Upper- and lower-casing a character agree with each other: both maps
      keep the letter and change only its case. */
  lemma CaseMapsAgree(c: char)
    ensures LowerChar(UpperChar(c)) == LowerChar(c)
    ensures UpperChar(LowerChar(c)) == UpperChar(c)
    ensures UpperChar(UpperChar(c)) == UpperChar(c)
    ensures LowerChar(LowerChar(c)) == LowerChar(c)
  {
  }

  /** `str.upper`: the same letters, none of them lower case. */
  function Upper(s: string): (r: string)
    ensures |r| == |s|
    ensures forall i :: 0 <= i < |r| ==> !IsLower(r[i]) && LowerChar(r[i]) == LowerChar(s[i])
  {
    seq(|s|, i requires 0 <= i < |s| => UpperChar(s[i]))
  }

  /** `str.lower`: the same letters, none of them upper case. */
  function Lower(s: string): (r: string)
    ensures |r| == |s|
    ensures forall i :: 0 <= i < |r| ==> !IsUpper(r[i]) && UpperChar(r[i]) == UpperChar(s[i])
    ensures forall i :: 0 <= i < |r| ==> IsSpace(r[i]) == IsSpace(s[i])
  {
    seq(|s|, i requires 0 <= i < |s| => LowerChar(s[i]))
  }

  /** A word in the shape `str.capitalize` leaves it: no lower-case first
      letter and no upper-case letter after it. */
  predicate IsCapitalized(t: string) {
    (t == [] || !IsLower(t[0])) && forall j :: 1 <= j < |t| ==> !IsUpper(t[j])
  }

  /** `str.capitalize`: first character upper-cased, the rest lower-cased. */
  function Capitalize(t: string): (r: string)
    ensures |r| == |t|
    ensures IsCapitalized(r)
    ensures forall i :: 0 <= i < |r| ==> LowerChar(r[i]) == LowerChar(t[i])
    ensures forall i :: 0 <= i < |r| ==> IsSpace(r[i]) == IsSpace(t[i])
  {
    if t == [] then []
    else
      CaseMapsAgree(t[0]);
      forall i | 1 <= i < |t| ensures LowerChar(Lower(t[1..])[i - 1]) == LowerChar(t[i]) {
        CaseMapsAgree(t[i]);
      }
      [UpperChar(t[0])] + Lower(t[1..])
  }

  /** A word is a fixed point of `Capitalize` exactly when it is capitalised. */
  lemma CapitalizeFixedPoint(t: string)
    ensures Capitalize(t) == t <==> IsCapitalized(t)
  {
  }

  /** Capitalising twice is capitalising once. */
  lemma CapitalizeIdempotent(t: string)
    ensures Capitalize(Capitalize(t)) == Capitalize(t)
  {
  }

  /** A token of `split()`: non-empty and free of whitespace. */
  predicate IsWord(t: string) {
    t != [] && forall i :: 0 <= i < |t| ==> !IsSpace(t[i])
  }

  predicate AllWords(ts: seq<string>) {
    forall k :: 0 <= k < |ts| ==> IsWord(ts[k])
  }

  /** Length of the longest prefix of `s` that holds no whitespace. */
  function TokenLen(s: string): (n: nat)
    ensures n <= |s|
    ensures forall i :: 0 <= i < n ==> !IsSpace(s[i])
    ensures n == |s| || IsSpace(s[n])
  {
    if s == [] || IsSpace(s[0]) then 0 else 1 + TokenLen(s[1..])
  }

  /** `str.split()` with no separator: runs of whitespace separate tokens,
      leading and trailing whitespace is ignored and no token is empty. */
  function Split(s: string): (ts: seq<string>)
    ensures AllWords(ts)
    decreases |s|
  {
    if s == [] then []
    else if IsSpace(s[0]) then Split(s[1..])
    else
      var n := TokenLen(s);
      [s[..n]] + Split(s[n..])
  }

  /** `' '.join(ts)`: the strings in order with one space between
      neighbours, so one character longer per separator than their
      concatenation. */
  function Join(ts: seq<string>): (r: string)
    ensures ts == [] ==> r == []
    ensures ts != [] ==> |r| == |Concat(ts)| + |ts| - 1
  {
    if ts == [] then []
    else if |ts| == 1 then ts[0]
    else ts[0] + " " + Join(ts[1..])
  }

  /** The list comprehension `[t.capitalize() for t in ts]`. */
  function CapitalizeAll(ts: seq<string>): (cs: seq<string>)
    ensures |cs| == |ts|
    ensures forall k :: 0 <= k < |cs| ==> cs[k] == Capitalize(ts[k])
  {
    seq(|ts|, k requires 0 <= k < |ts| => Capitalize(ts[k]))
  }

  /** The first-name normalisation of `fullname`:
      `' '.join([t.capitalize() for t in s.split()])`. It is never longer than
      its input, it is single-spaced, and its tokens are the input's tokens
      capitalised. */
  function Normalize(s: string): (r: string)
    ensures |r| <= |s|
    ensures SingleSpaced(r)
    ensures Split(r) == CapitalizeAll(Split(s))
  {
    var ts := Split(s);
    var cs := CapitalizeAll(ts);
    JoinSingleSpaced(cs);
    SplitJoin(cs);
    JoinSplitNoLonger(s);
    CapitalizeAllConcat(ts);
    Join(cs)
  }

  /** The characters of `s` that are not whitespace, in order. */
  function NonSpace(s: string): string {
    if s == [] then []
    else (if IsSpace(s[0]) then [] else [s[0]]) + NonSpace(s[1..])
  }

  /** The concatenation of a list of strings. */
  function Concat(ts: seq<string>): string {
    if ts == [] then [] else ts[0] + Concat(ts[1..])
  }

  lemma {:induction false} NonSpaceAppend(a: string, b: string)
    ensures NonSpace(a + b) == NonSpace(a) + NonSpace(b)
  {
    if a == [] {
      assert a + b == b;
    } else {
      assert (a + b)[0] == a[0] && (a + b)[1..] == a[1..] + b;
      NonSpaceAppend(a[1..], b);
    }
  }

  lemma {:induction false} NonSpaceOfWord(w: string)
    requires forall i :: 0 <= i < |w| ==> !IsSpace(w[i])
    ensures NonSpace(w) == w
  {
    if w != [] {
      NonSpaceOfWord(w[1..]);
    }
  }

  /** `split()` loses nothing but whitespace: its tokens, concatenated, are
      the non-whitespace characters of the input in their original order. */
  lemma {:induction false} SplitKeepsContent(s: string)
    ensures Concat(Split(s)) == NonSpace(s)
    decreases |s|
  {
    if s == [] {
    } else if IsSpace(s[0]) {
      SplitKeepsContent(s[1..]);
    } else {
      var n := TokenLen(s);
      var ts := [s[..n]] + Split(s[n..]);
      assert ts[1..] == Split(s[n..]);
      SplitKeepsContent(s[n..]);
      assert s == s[..n] + s[n..];
      NonSpaceAppend(s[..n], s[n..]);
      NonSpaceOfWord(s[..n]);
    }
  }

  lemma {:induction false} TokenLenOfWord(w: string, rest: string)
    requires forall i :: 0 <= i < |w| ==> !IsSpace(w[i])
    requires rest == [] || IsSpace(rest[0])
    ensures TokenLen(w + rest) == |w|
  {
    if w != [] {
      assert (w + rest)[1..] == w[1..] + rest;
      TokenLenOfWord(w[1..], rest);
    } else {
      assert w + rest == rest;
    }
  }

  /** Joining words with single spaces and splitting again gives the words back. */
  lemma {:induction false} SplitJoin(ts: seq<string>)
    requires AllWords(ts)
    ensures Split(Join(ts)) == ts
  {
    if |ts| == 1 {
      var w := ts[0];
      TokenLenOfWord(w, []);
      assert w + [] == w;
      assert w[|w|..] == [];
    } else if |ts| > 1 {
      var w, j := ts[0], Join(ts[1..]);
      var s := w + " " + j;
      assert s == w + (" " + j);
      TokenLenOfWord(w, " " + j);
      assert s[..|w|] == w;
      assert s[|w|..] == " " + j;
      assert (" " + j)[1..] == j;
      SplitJoin(ts[1..]);
      assert [w] + ts[1..] == ts;
    }
  }

  /** No leading, trailing or doubled whitespace, and the only whitespace
      character is the space itself. */
  predicate SingleSpaced(s: string) {
    forall i :: 0 <= i < |s| && IsSpace(s[i]) ==>
      s[i] == ' ' && 0 < i < |s| - 1 && !IsSpace(s[i + 1])
  }

  lemma {:induction false} JoinSingleSpaced(ts: seq<string>)
    requires AllWords(ts)
    ensures SingleSpaced(Join(ts))
    ensures ts != [] ==> Join(ts) != []
  {
    if |ts| > 1 {
      var w, j := ts[0], Join(ts[1..]);
      JoinSingleSpaced(ts[1..]);
      var s := w + " " + j;
      forall i | 0 <= i < |s| && IsSpace(s[i])
        ensures s[i] == ' ' && 0 < i < |s| - 1 && !IsSpace(s[i + 1])
      {
        if i > |w| {
          assert s[i] == j[i - |w| - 1];
          assert s[i + 1] == j[i - |w|];
        } else {
          assert s[i + 1] == j[0];
        }
      }
    }
  }

  /** Capitalising keeps every token's length, so it keeps the length of the
      concatenation. */
  lemma {:induction false} CapitalizeAllConcat(ts: seq<string>)
    ensures |Concat(CapitalizeAll(ts))| == |Concat(ts)|
  {
    if ts != [] {
      assert CapitalizeAll(ts)[1..] == CapitalizeAll(ts[1..]);
      CapitalizeAllConcat(ts[1..]);
    }
  }

  /** Re-joining the tokens of `split()` with single spaces never lengthens
      the string: every separator replaces at least one whitespace character. */
  lemma {:induction false} JoinSplitNoLonger(s: string)
    ensures |Join(Split(s))| <= |s|
    decreases |s|
  {
    if s == [] {
    } else if IsSpace(s[0]) {
      JoinSplitNoLonger(s[1..]);
    } else {
      var n := TokenLen(s);
      var rest := Split(s[n..]);
      assert Split(s) == [s[..n]] + rest;
      if rest != [] {
        assert n < |s| && IsSpace(s[n]);
        assert s[n..][1..] == s[n + 1..];
        assert rest == Split(s[n + 1..]);
        JoinSplitNoLonger(s[n + 1..]);
        assert ([s[..n]] + rest)[1..] == rest;
      }
    }
  }

  /** A word followed by nothing or by whitespace is the first token. */
  lemma SplitWordThen(w: string, rest: string)
    requires IsWord(w)
    requires rest == [] || IsSpace(rest[0])
    ensures Split(w + rest) == [w] + Split(rest)
  {
    TokenLenOfWord(w, rest);
    assert (w + rest)[0] == w[0];
    assert (w + rest)[..|w|] == w && (w + rest)[|w|..] == rest;
  }

  /** Every whitespace character separates tokens: splitting around one gives
      the tokens before it followed by the tokens after it. With
      `SplitJoin([w])` for a single word `w`, this determines `Split`. */
  lemma {:induction false} SplitAtSpace(a: string, c: char, b: string)
    requires IsSpace(c)
    ensures Split(a + [c] + b) == Split(a) + Split(b)
    decreases |a|
  {
    if a == [] {
      assert a + [c] + b == [c] + b && ([c] + b)[1..] == b;
    } else if IsSpace(a[0]) {
      assert (a + [c] + b)[0] == a[0] && (a + [c] + b)[1..] == a[1..] + [c] + b;
      SplitAtSpace(a[1..], c, b);
    } else {
      var m := TokenLen(a);
      var w, a' := a[..m], a[m..];
      assert a == w + a' && a + [c] + b == w + (a' + [c] + b);
      SplitWordThen(w, a');
      SplitWordThen(w, a' + [c] + b);
      SplitAtSpace(a', c, b);
    }
  }

  /** Every token of the normalised first name is in capitalised shape. */
  lemma NormalizeShape(s: string)
    ensures forall k :: 0 <= k < |Split(Normalize(s))| ==> IsCapitalized(Split(Normalize(s))[k])
  {
    var cs := CapitalizeAll(Split(s));
    assert Split(Normalize(s)) == cs;
    forall k | 0 <= k < |cs| ensures IsCapitalized(cs[k]) {
    }
  }

  /** Normalising a first name a second time changes nothing. */
  lemma NormalizeIdempotent(s: string)
    ensures Normalize(Normalize(s)) == Normalize(s)
  {
    var cs := CapitalizeAll(Split(s));
    NormalizeShape(s);
    forall k | 0 <= k < |cs| ensures Capitalize(cs[k]) == cs[k] {
      CapitalizeIdempotent(Split(s)[k]);
    }
    assert CapitalizeAll(cs) == cs;
  }
}
