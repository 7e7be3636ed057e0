/**
 * The JavaScript string built-ins the remapping preprocessor relies on,
 * modelled on `seq<char>`: the white-space class shared by `\s` and
 * `String.prototype.trim`, `trim`, `split` with a one-character separator,
 * `indexOf`/`includes`, and `replace` with a string pattern (including the
 * `$` substitution patterns of its replacement text).
 */
module JsStrings {
  import opened Wrappers

  /** ECMAScript's WhiteSpace and LineTerminator characters: the set matched by
      the regex class `\s` and removed by `trim`. */
  predicate IsJsWhitespace(c: char) {
    c == '\t' || c == '\n' || c == '\U{000B}' || c == '\U{000C}' || c == '\r'
    || c == ' ' || c == '\U{00A0}' || c == '\U{1680}'
    || ('\U{2000}' <= c <= '\U{200A}')
    || c == '\U{2028}' || c == '\U{2029}' || c == '\U{202F}' || c == '\U{205F}'
    || c == '\U{3000}' || c == '\U{FEFF}'
  }

  predicate AllWhitespace(s: string) {
    forall i :: 0 <= i < |s| ==> IsJsWhitespace(s[i])
  }

  /** The number of white-space characters at the start of `s`. */
  function LeadingWhitespace(s: string): (n: nat)
    ensures n <= |s|
    ensures forall i :: 0 <= i < n ==> IsJsWhitespace(s[i])
    ensures n == |s| || !IsJsWhitespace(s[n])
  {
    if |s| > 0 && IsJsWhitespace(s[0]) then 1 + LeadingWhitespace(s[1..]) else 0
  }

  /** Drops the leading white space: what remains is a suffix of `s` that is
      empty or starts with a non-white-space character. */
  function TrimStart(s: string): (r: string)
    ensures |r| <= |s| && r == s[|s| - |r|..]
    ensures AllWhitespace(s[..|s| - |r|])
    ensures r == [] || !IsJsWhitespace(r[0])
  {
    s[LeadingWhitespace(s)..]
  }

  /** Drops the trailing white space: what remains is a prefix of `s` that is
      empty or ends with a non-white-space character. */
  function TrimEnd(s: string): (r: string)
    ensures |r| <= |s| && r == s[..|r|]
    ensures AllWhitespace(s[|r|..])
    ensures r == [] || !IsJsWhitespace(r[|r| - 1])
  {
    if |s| > 0 && IsJsWhitespace(s[|s| - 1]) then
      var r := TrimEnd(s[..|s| - 1]);
      assert s[|r|..] == s[..|s| - 1][|r|..] + [s[|s| - 1]];
      r
    else
      s
  }

  /** `String.prototype.trim`. */
  function Trim(s: string): (r: string)
    ensures |r| <= |s|
    ensures r == [] || (!IsJsWhitespace(r[0]) && !IsJsWhitespace(r[|r| - 1]))
    ensures AllWhitespace(s) <==> r == []
  {
    var t := TrimStart(s);
    assert t != [] ==> t[0] == s[|s| - |t|];
    assert s[..|s|] == s;
    var r := TrimEnd(t);
    assert t[0..] == t;
    assert r != [] ==> r[0] == t[0];
    r
  }

  /** Once the white space before index `a` is gone, `TrimStart` stops. */
  lemma TrimStartAt(s: string, a: nat)
    requires a <= |s| && AllWhitespace(s[..a])
    requires a == |s| || !IsJsWhitespace(s[a])
    ensures TrimStart(s) == s[a..]
  {
    forall i | 0 <= i < a ensures IsJsWhitespace(s[i]) {
      assert s[..a][i] == s[i];
    }
  }

  /** Once the white space from index `b` on is gone, `TrimEnd` stops. */
  lemma {:induction false} TrimEndAt(s: string, b: nat)
    requires b <= |s| && AllWhitespace(s[b..])
    requires b == 0 || !IsJsWhitespace(s[b - 1])
    ensures TrimEnd(s) == s[..b]
    decreases |s| - b
  {
    if b < |s| {
      var n := |s|;
      assert s[n - 1] == s[b..][n - 1 - b];
      var s' := s[..n - 1];
      assert s'[b..] == s[b..n - 1];
      assert forall i :: 0 <= i < n - 1 - b ==> s[b..n - 1][i] == s[b..][i];
      TrimEndAt(s', b);
      assert s'[..b] == s[..b];
    }
  }

  lemma AllWhitespaceAround(s: string, a: nat)
    requires a <= |s| && AllWhitespace(s[..a]) && AllWhitespace(s[a..])
    ensures AllWhitespace(s)
  {
    forall i | 0 <= i < |s| ensures IsJsWhitespace(s[i]) {
      if i < a { assert s[i] == s[..a][i]; } else { assert s[i] == s[a..][i - a]; }
    }
  }

  lemma SliceOfSuffix(s: string, a: nat, b: nat)
    requires a <= b <= |s|
    ensures s[a..][..b - a] == s[a..b] && s[a..][b - a..] == s[b..]
  {
  }

  /** Trimming removes exactly the white space around the text: whenever `s`
      is `s[..a]` (white space) + `s[a..b]` + `s[b..]` (white space) and the
      middle part is empty or has non-white-space ends, `trim` returns that
      middle part. */
  lemma TrimIsUnique(s: string, a: nat, b: nat)
    requires a <= b <= |s|
    requires AllWhitespace(s[..a]) && AllWhitespace(s[b..])
    requires a == b || (!IsJsWhitespace(s[a]) && !IsJsWhitespace(s[b - 1]))
    ensures Trim(s) == s[a..b]
  {
    if a == b {
      assert AllWhitespace(s) by { AllWhitespaceAround(s, a); }
    } else {
      assert TrimStart(s) == s[a..] by { TrimStartAt(s, a); }
      assert TrimEnd(s[a..]) == s[a..b] by {
        SliceOfSuffix(s, a, b);
        TrimEndAt(s[a..], b - a);
      }
    }
  }

  /** A text that neither starts nor ends with white space is left as it is. */
  lemma TrimNoop(s: string)
    requires s == [] || (!IsJsWhitespace(s[0]) && !IsJsWhitespace(s[|s| - 1]))
    ensures Trim(s) == s
  {
    assert s[..0] == [] && s[|s|..] == [] && s[0..|s|] == s;
    TrimIsUnique(s, 0, |s|);
  }

  /** Concatenates `parts` with `sep` between consecutive parts. */
  function Join(parts: seq<string>, sep: char): string {
    if |parts| == 0 then ""
    else if |parts| == 1 then parts[0]
    else parts[0] + [sep] + Join(parts[1..], sep)
  }

  /** The pieces of `[c] + s`, given the pieces of `s`: a separator starts a
      new, empty first piece; any other character joins the first piece. */
  function PushChar(c: char, pieces: seq<string>, sep: char): (r: seq<string>)
    requires |pieces| >= 1
    ensures |r| >= 1
  {
    if c == sep then [""] + pieces else [[c] + pieces[0]] + pieces[1..]
  }

  /** `String.prototype.split` with a one-character separator: the pieces of
      `s` between separators, in order (an empty `s` gives `[""]`). */
  function Split(s: string, sep: char): (r: seq<string>)
    ensures |r| >= 1
  {
    if |s| == 0 then [""] else PushChar(s[0], Split(s[1..], sep), sep)
  }

  lemma SplitCons(c: char, s: string, sep: char)
    ensures Split([c] + s, sep) == PushChar(c, Split(s, sep), sep)
  {
    assert ([c] + s)[1..] == s;
  }

  lemma PushCharAppend(c: char, front: seq<string>, back: seq<string>, sep: char)
    requires |front| >= 1
    ensures PushChar(c, front + back, sep) == PushChar(c, front, sep) + back
  {
    assert (front + back)[1..] == front[1..] + back;
  }

  lemma JoinPushChar(c: char, pieces: seq<string>, sep: char)
    requires |pieces| >= 1
    ensures Join(PushChar(c, pieces, sep), sep) == [c] + Join(pieces, sep)
  {
    var r := PushChar(c, pieces, sep);
    if c == sep {
      assert r[1..] == pieces;
    } else if |pieces| > 1 {
      assert r[1..] == pieces[1..];
    }
  }

  /** The pieces hold no separator, and joining them with it gives back the
      text. */
  lemma {:induction false} JoinSplit(s: string, sep: char)
    ensures forall i :: 0 <= i < |Split(s, sep)| ==> sep !in Split(s, sep)[i]
    ensures Join(Split(s, sep), sep) == s
  {
    if |s| > 0 {
      JoinSplit(s[1..], sep);
      JoinPushChar(s[0], Split(s[1..], sep), sep);
      assert s == [s[0]] + s[1..];
      var rest := Split(s[1..], sep);
      if s[0] != sep {
        assert forall i :: 1 <= i < |rest| ==> PushChar(s[0], rest, sep)[i] == rest[i];
      }
    }
  }

  lemma {:induction false} SplitWithoutSeparator(s: string, sep: char)
    requires sep !in s
    ensures Split(s, sep) == [s]
  {
    if |s| > 0 {
      assert sep !in s[1..];
      SplitWithoutSeparator(s[1..], sep);
      assert s == [s[0]] + s[1..];
    }
  }

  /** Splitting distributes over a separator: the pieces of `a + sep + b` are
      the pieces of `a` followed by the pieces of `b`. */
  lemma {:induction false} SplitConcat(a: string, sep: char, b: string)
    ensures Split(a + [sep] + b, sep) == Split(a, sep) + Split(b, sep)
  {
    if |a| == 0 {
      assert a + [sep] + b == [sep] + b;
      SplitCons(sep, b, sep);
    } else {
      var c, tail := a[0], a[1..];
      calc {
        Split(a + [sep] + b, sep);
        { assert a + [sep] + b == [c] + (tail + [sep] + b); SplitCons(c, tail + [sep] + b, sep); }
        PushChar(c, Split(tail + [sep] + b, sep), sep);
        { SplitConcat(tail, sep, b); }
        PushChar(c, Split(tail, sep) + Split(b, sep), sep);
        { PushCharAppend(c, Split(tail, sep), Split(b, sep), sep); }
        PushChar(c, Split(tail, sep), sep) + Split(b, sep);
        { assert a == [c] + tail; SplitCons(c, tail, sep); }
        Split(a, sep) + Split(b, sep);
      }
    }
  }

  /** Two separator-free texts joined by the separator split back into the
      two. */
  lemma SplitTwo(a: string, sep: char, b: string)
    requires sep !in a && sep !in b
    ensures Split(a + [sep] + b, sep) == [a, b]
  {
    SplitConcat(a, sep, b);
    SplitWithoutSeparator(a, sep);
    SplitWithoutSeparator(b, sep);
  }

  /** `Split` inverts `Join` on separator-free pieces. */
  lemma {:induction false} SplitJoin(parts: seq<string>, sep: char)
    requires |parts| >= 1
    requires forall i :: 0 <= i < |parts| ==> sep !in parts[i]
    ensures Split(Join(parts, sep), sep) == parts
  {
    SplitWithoutSeparator(parts[0], sep);
    if |parts| > 1 {
      SplitJoin(parts[1..], sep);
      SplitConcat(parts[0], sep, Join(parts[1..], sep));
      assert parts == [parts[0]] + parts[1..];
    }
  }

  /** The first two pieces: with no separator in `s` the only piece is `s`;
      otherwise the first piece runs up to the first separator and the second
      from there up to the next separator or the end. */
  lemma SplitFields(s: string, sep: char)
    ensures var f := Split(s, sep);
      sep !in f[0]
      && (|f| == 1 <==> sep !in s)
      && (|f| == 1 ==> f[0] == s)
      && (|f| >= 2 ==>
            var n := |f[0]|;
            var m := n + 1 + |f[1]|;
            sep !in f[1] && m <= |s| && s[..n] == f[0] && s[n] == sep
            && s[n + 1..m] == f[1] && (m == |s| || s[m] == sep))
  {
    var f := Split(s, sep);
    JoinSplit(s, sep);
    if |f| >= 2 {
      var n := |f[0]|;
      var tail := f[1..];
      assert s == f[0] + [sep] + Join(tail, sep);
      assert s[n] == sep;
      if |tail| == 1 {
        assert Join(tail, sep) == f[1];
      } else {
        assert Join(tail, sep) == f[1] + [sep] + Join(tail[1..], sep);
        assert s[n + 1 + |f[1]|] == sep;
      }
      assert s[n + 1..n + 1 + |f[1]|] == f[1];
    }
  }

  /** Every piece is empty exactly when every character is the separator. */
  lemma {:induction false} AllPiecesEmpty(s: string, sep: char)
    ensures (forall i :: 0 <= i < |Split(s, sep)| ==> Split(s, sep)[i] == "")
        <==> (forall i :: 0 <= i < |s| ==> s[i] == sep)
  {
    if |s| > 0 {
      AllPiecesEmpty(s[1..], sep);
      var rest := Split(s[1..], sep);
      if s[0] == sep {
        assert Split(s, sep) == [""] + rest;
        assert (forall i :: 0 <= i < |s| ==> s[i] == sep)
          <==> (forall i :: 0 <= i < |s| - 1 ==> s[1..][i] == sep) by {
          assert forall i :: 0 <= i < |s| - 1 ==> s[1..][i] == s[i + 1];
          assert forall i :: 1 <= i < |s| ==> s[i] == s[1..][i - 1];
        }
        assert (forall i :: 0 <= i < |Split(s, sep)| ==> Split(s, sep)[i] == "")
          <==> (forall i :: 0 <= i < |rest| ==> rest[i] == "") by {
          assert forall i :: 0 <= i < |rest| ==> Split(s, sep)[i + 1] == rest[i];
        }
      } else {
        assert Split(s, sep)[0] == [s[0]] + rest[0];
      }
    }
  }

  /** `p` occurs in `s` starting at index `i`. */
  predicate OccursAt(s: string, p: string, i: nat) {
    i + |p| <= |s| && s[i..i + |p|] == p
  }

  /** ECMAScript's StringIndexOf(s, p, k): the least index `>= k` at which `p`
      occurs in `s`, or none. */
  function IndexOfFrom(s: string, p: string, k: nat): (r: Option<nat>)
    ensures r.Some? ==> k <= r.value && OccursAt(s, p, r.value)
    ensures r.Some? ==> forall j :: k <= j < r.value ==> !OccursAt(s, p, j)
    ensures r.None? ==> forall j :: k <= j ==> !OccursAt(s, p, j)
    decreases |s| - k
  {
    if k + |p| > |s| then None
    else if s[k..k + |p|] == p then Some(k)
    else IndexOfFrom(s, p, k + 1)
  }

  /** `String.prototype.indexOf(p)`, with none for -1. */
  function IndexOf(s: string, p: string): (r: Option<nat>)
    ensures r.Some? ==> OccursAt(s, p, r.value) && forall j :: 0 <= j < r.value ==> !OccursAt(s, p, j)
    ensures r.None? ==> forall j :: 0 <= j ==> !OccursAt(s, p, j)
  {
    IndexOfFrom(s, p, 0)
  }

  /** `String.prototype.includes(p)`. */
  function Includes(s: string, p: string): (b: bool)
    ensures b <==> exists i :: OccursAt(s, p, i)
  {
    IndexOf(s, p).Some?
  }

  /** ECMAScript's GetSubstitution for a string pattern (no capture groups):
      expands the replacement text `t` for a match of `matched` that has
      `before` in front of it and `after` behind it. "$$" gives "$", "$&"
      the match, "$`" the text before it and "$'" the text after it; every
      other character, `$` included, stands for itself. */
  function Expand(t: string, matched: string, before: string, after: string): (r: string)
    ensures '$' !in t ==> r == t
  {
    if |t| == 0 then ""
    else if t[0] == '$' && |t| >= 2 && t[1] == '$' then "$" + Expand(t[2..], matched, before, after)
    else if t[0] == '$' && |t| >= 2 && t[1] == '&' then matched + Expand(t[2..], matched, before, after)
    else if t[0] == '$' && |t| >= 2 && t[1] == '`' then before + Expand(t[2..], matched, before, after)
    else if t[0] == '$' && |t| >= 2 && t[1] == '\'' then after + Expand(t[2..], matched, before, after)
    else
      assert '$' !in t ==> '$' !in t[1..] by {
        assert forall i :: 0 <= i < |t| - 1 ==> t[1..][i] == t[i + 1];
      }
      assert t == [t[0]] + t[1..];
      [t[0]] + Expand(t[1..], matched, before, after)
  }

  /** The occurrence of `p` at `i` replaced by the expansion of `t`: the text
      before `i` and the text after the occurrence are kept. */
  function ReplaceAt(s: string, p: string, t: string, i: nat): (r: string)
    requires OccursAt(s, p, i)
    ensures i <= |r| && |s| - |p| <= |r|
    ensures r[..i] == s[..i] && r[|r| - (|s| - i - |p|)..] == s[i + |p|..]
    ensures '$' !in t ==> r == s[..i] + t + s[i + |p|..]
  {
    var r := s[..i] + Expand(t, p, s[..i], s[i + |p|..]) + s[i + |p|..];
    assert r[|r| - (|s| - i - |p|)..] == s[i + |p|..];
    r
  }

  /** `String.prototype.replace(p, t)` with a string pattern: only the first
      occurrence of `p` is replaced, by the expansion of `t`. */
  function ReplaceFirst(s: string, p: string, t: string): (r: string)
    ensures !Includes(s, p) ==> r == s
  {
    match IndexOf(s, p)
    case None => s
    case Some(i) => ReplaceAt(s, p, t, i)
  }

  /** `indexOf` finds the first occurrence. */
  lemma IndexOfFirst(s: string, p: string, i: nat)
    requires OccursAt(s, p, i)
    requires forall j :: 0 <= j < i ==> !OccursAt(s, p, j)
    ensures IndexOf(s, p) == Some(i)
  {
    var r := IndexOf(s, p);
    assert r.Some?;
    assert !(r.value < i);
    assert !(i < r.value);
  }

  /** Where the first occurrence of `p` is at `i`, that occurrence is the one
      replaced. */
  lemma ReplaceFirstAt(s: string, p: string, t: string, i: nat)
    requires OccursAt(s, p, i)
    requires forall j :: 0 <= j < i ==> !OccursAt(s, p, j)
    ensures ReplaceFirst(s, p, t) == ReplaceAt(s, p, t, i)
  {
    IndexOfFirst(s, p, i);
  }

  /** Without `$` in `t`, the replacement is `t` itself, and the length
      changes by `|t| - |p|`. */
  lemma ReplaceFirstLiteral(s: string, p: string, t: string, i: nat)
    requires OccursAt(s, p, i)
    requires forall j :: 0 <= j < i ==> !OccursAt(s, p, j)
    requires '$' !in t
    ensures ReplaceFirst(s, p, t) == s[..i] + t + s[i + |p|..]
    ensures |ReplaceFirst(s, p, t)| == |s| - |p| + |t|
  {
    ReplaceFirstAt(s, p, t, i);
  }

}
