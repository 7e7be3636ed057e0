/**
 * The import-path remapping preprocessor of hardhat.config.js: the parser of
 * the rule table read from `remappings.txt` (`getRemappings`) and the
 * per-line `transform` that rewrites Solidity import lines with it.
 *
 * The contents of `remappings.txt` are a parameter; the table is parsed once
 * and passed to `Transform`, where the source re-reads and re-parses the
 * file for every import line (the same table while the file is unchanged).
 */
module Remappings {
  import opened Wrappers
  import opened JsStrings

  /** One remapping: the text `from` is replaced by `to`. `to` is `None`
      where the rule line has no `=` and JavaScript's destructuring binds
      `undefined`. */
  datatype Rule = Rule(from: string, to: Option<string>)

  /* ---------------------------------------------------------------------- */
  /* getRemappings                                                          */
  /* ---------------------------------------------------------------------- */

  /** One rule line: trimmed, split on `=`, the first two fields kept. */
  function ParseLine(line: string): (r: Rule)
    ensures '=' !in r.from
    ensures r.to.None? <==> '=' !in Trim(line)
    ensures r.to.Some? ==> '=' !in r.to.value
  {
    SplitFields(Trim(line), '=');
    var fields := Split(Trim(line), '=');
    Rule(fields[0], if |fields| >= 2 then Some(fields[1]) else None)
  }

  /** `.filter(Boolean)` on strings: only `""` is dropped. */
  function NonEmpty(segments: seq<string>): (r: seq<string>)
    ensures |r| <= |segments|
    ensures forall i :: 0 <= i < |r| ==> r[i] != ""
    ensures r == [] <==> forall i :: 0 <= i < |segments| ==> segments[i] == ""
  {
    if |segments| == 0 then []
    else
      var rest := NonEmpty(segments[1..]);
      assert forall i :: 1 <= i < |segments| ==> segments[i] == segments[1..][i - 1];
      if segments[0] == "" then rest else [segments[0]] + rest
  }

  function ParseAll(lines: seq<string>): (table: seq<Rule>)
    ensures |table| == |lines|
    ensures forall i :: 0 <= i < |lines| ==> table[i] == ParseLine(lines[i])
  {
    seq(|lines|, i requires 0 <= i < |lines| => ParseLine(lines[i]))
  }

  /** `getRemappings`, with the text of `remappings.txt` as its argument. */
  function ParseRemappings(text: string): (table: seq<Rule>)
    ensures |table| <= |Split(text, '\n')|
    ensures forall i :: 0 <= i < |table| ==>
      '=' !in table[i].from && (table[i].to.Some? ==> '=' !in table[i].to.value)
  {
    ParseAll(NonEmpty(Split(text, '\n')))
  }

  /* ---------------------------------------------------------------------- */
  /* transform                                                              */
  /* ---------------------------------------------------------------------- */

  /** ASCII case folding; the `i` flag of a non-Unicode regex never folds a
      non-ASCII character onto an ASCII letter, so this is all `/import /i`
      needs. */
  function AsciiLower(c: char): (r: char)
    ensures r != c <==> 'A' <= c <= 'Z'
    ensures 'a' <= r <= 'z' <==> ('a' <= c <= 'z' || 'A' <= c <= 'Z')
    ensures 'A' <= c <= 'Z' ==> r as int - 'a' as int == c as int - 'A' as int
  {
    if 'A' <= c <= 'Z' then (c as int + 32) as char else c
  }

  /** `import ` (any letter case, one literal space) starts at index `k`. */
  predicate ImportKeywordAt(line: string, k: nat) {
    k + 7 <= |line|
    && (forall i :: 0 <= i < 6 ==> AsciiLower(line[k + i]) == "import"[i])
    && line[k + 6] == ' '
  }

  /** `line.match(/^\s*import /i)`: after the leading white space comes the
      keyword. */
  predicate IsImportLine(line: string) {
    ImportKeywordAt(line, |line| - |TrimStart(line)|)
  }

  /** The text `line.replace(from, to)` substitutes: `undefined` becomes the
      string "undefined". */
  function ReplacementText(to: Option<string>): (r: string)
    ensures '$' in r ==> to.Some?
  {
    match to
    case Some(t) => t
    case None => "undefined"
  }

  /** The index of the first rule, in table order, whose `from` occurs in
      `line`. */
  function FirstMatch(line: string, table: seq<Rule>): (r: Option<nat>)
    ensures r.Some? ==> r.value < |table| && Includes(line, table[r.value].from)
    ensures r.Some? ==> forall j :: 0 <= j < r.value ==> !Includes(line, table[j].from)
    ensures r.None? ==> forall j :: 0 <= j < |table| ==> !Includes(line, table[j].from)
  {
    if |table| == 0 then None
    else if Includes(line, table[0].from) then Some(0)
    else
      assert forall j :: 1 <= j < |table| ==> table[j] == table[1..][j - 1];
      match FirstMatch(line, table[1..])
      case None => None
      case Some(k) => Some(k + 1)
  }

  /** What `transform` returns for `line` under `table`. */
  function Remapped(line: string, table: seq<Rule>): (r: string)
    ensures !IsImportLine(line) ==> r == line
    ensures (forall j :: 0 <= j < |table| ==> !Includes(line, table[j].from)) ==> r == line
  {
    if !IsImportLine(line) then line
    else match FirstMatch(line, table)
      case None => line
      case Some(k) => ReplaceFirst(line, table[k].from, ReplacementText(table[k].to))
  }

  /** `transform`: on an import line, walk the table in order and apply the
      first rule whose `from` occurs in the line, then stop. */
  method Transform(line: string, table: seq<Rule>) returns (out: string)
    ensures out == Remapped(line, table)
  {
    out := line;
    if IsImportLine(line) {
      for i := 0 to |table|
        invariant out == line
        invariant forall j :: 0 <= j < i ==> !Includes(line, table[j].from)
      {
        if Includes(out, table[i].from) {
          assert FirstMatch(line, table) == Some(i);
          out := ReplaceFirst(out, table[i].from, ReplacementText(table[i].to));
          break;
        }
      }
    }
  }

  /* ---------------------------------------------------------------------- */
  /* Properties of the parser                                               */
  /* ---------------------------------------------------------------------- */

  /** `from` is the trimmed line up to its first `=`; `to` is absent exactly
      when the trimmed line has no `=`, and otherwise is the text between the
      first `=` and the second `=` (or the end of the line). */
  lemma ParseLineFields(line: string)
    ensures var t, rule := Trim(line), ParseLine(line);
      '=' !in rule.from
      && (rule.to.None? <==> '=' !in t)
      && (rule.to.None? ==> rule.from == t)
      && (rule.to.Some? ==>
            var n := |rule.from|;
            var m := n + 1 + |rule.to.value|;
            '=' !in rule.to.value && m <= |t| && t[..n] == rule.from && t[n] == '='
            && t[n + 1..m] == rule.to.value && (m == |t| || t[m] == '='))
  {
    SplitFields(Trim(line), '=');
  }

  lemma FormattedRuleTrimmed(from: string, to: string)
    requires from == [] || !IsJsWhitespace(from[0])
    requires to == [] || !IsJsWhitespace(to[|to| - 1])
    ensures Trim(from + "=" + to) == from + "=" + to
  {
    var l := from + "=" + to;
    assert l[0] == if from == [] then '=' else from[0];
    assert l[|l| - 1] == if to == [] then '=' else to[|to| - 1];
    TrimNoop(l);
  }

  /** Writing a rule out as `from=to` and parsing the line gives the rule back,
      when neither side holds `=` and the line has no white space at its
      ends. */
  lemma ParseFormattedRule(from: string, to: string)
    requires '=' !in from && '=' !in to
    requires from == [] || !IsJsWhitespace(from[0])
    requires to == [] || !IsJsWhitespace(to[|to| - 1])
    ensures ParseLine(from + "=" + to) == Rule(from, Some(to))
  {
    FormattedRuleTrimmed(from, to);
    SplitTwo(from, '=', to);
  }

  /** A non-empty line of white space only (" ", "\r", ...) survives the
      filter and becomes a rule with an empty `from` and no `to`. */
  lemma WhitespaceLineRule(line: string)
    requires line != "" && '\n' !in line && AllWhitespace(line)
    ensures ParseRemappings(line) == [Rule("", None)]
  {
    ParseSingleLine(line);
    assert Trim(line) == "";
  }

  lemma {:induction false} NonEmptyConcat(a: seq<string>, b: seq<string>)
    ensures NonEmpty(a + b) == NonEmpty(a) + NonEmpty(b)
  {
    if |a| > 0 {
      assert (a + b)[1..] == a[1..] + b;
      NonEmptyConcat(a[1..], b);
    } else {
      assert a + b == b;
    }
  }

  lemma {:induction false} NonEmptyKeepsAll(lines: seq<string>)
    requires forall i :: 0 <= i < |lines| ==> lines[i] != ""
    ensures NonEmpty(lines) == lines
  {
    if |lines| > 0 {
      NonEmptyKeepsAll(lines[1..]);
      assert lines == [lines[0]] + lines[1..];
    }
  }

  /** A text with no line break is one rule, unless it is empty. */
  lemma ParseSingleLine(line: string)
    requires '\n' !in line
    ensures ParseRemappings(line) == if line == "" then [] else [ParseLine(line)]
  {
    SplitWithoutSeparator(line, '\n');
    assert NonEmpty([line]) == if line == "" then [] else [line];
  }

  lemma ParseAllConcat(a: seq<string>, b: seq<string>)
    ensures ParseAll(a + b) == ParseAll(a) + ParseAll(b)
  {
  }

  /** Parsing keeps the order of the lines: the rules of `a` come before the
      rules of `b`. */
  lemma ParseConcat(a: string, b: string)
    ensures ParseRemappings(a + "\n" + b) == ParseRemappings(a) + ParseRemappings(b)
  {
    var sa, sb := Split(a, '\n'), Split(b, '\n');
    assert Split(a + "\n" + b, '\n') == sa + sb by { SplitConcat(a, '\n', b); }
    assert NonEmpty(sa + sb) == NonEmpty(sa) + NonEmpty(sb) by { NonEmptyConcat(sa, sb); }
    ParseAllConcat(NonEmpty(sa), NonEmpty(sb));
  }

  /** A file made of `lines` gives one rule per non-empty line, in file
      order; when no line is empty, rule `k` is parsed from line `k`. */
  lemma ParseLines(lines: seq<string>)
    requires |lines| >= 1
    requires forall i :: 0 <= i < |lines| ==> '\n' !in lines[i]
    ensures ParseRemappings(Join(lines, '\n')) == ParseAll(NonEmpty(lines))
    ensures (forall i :: 0 <= i < |lines| ==> lines[i] != "") ==>
      var table := ParseRemappings(Join(lines, '\n'));
      |table| == |lines| && forall k :: 0 <= k < |lines| ==> table[k] == ParseLine(lines[k])
  {
    SplitJoin(lines, '\n');
    if forall i :: 0 <= i < |lines| ==> lines[i] != "" {
      NonEmptyKeepsAll(lines);
    }
  }

  /** A blank line between two parts of an LF file adds no rule. */
  lemma LfBlankLineDropped(a: string, b: string)
    ensures ParseRemappings(a + "\n" + "\n" + b) == ParseRemappings(a) + ParseRemappings(b)
  {
    assert a + "\n" + "\n" + b == a + "\n" + ("" + "\n" + b);
    ParseConcat(a, "" + "\n" + b);
    ParseConcat("", b);
    ParseSingleLine("");
  }

  /** A blank line of a CRLF file is the one-character line "\r": it survives
      the filter and becomes the rule with empty `from` and no `to`. */
  lemma CrlfBlankLineKept(a: string, b: string)
    ensures ParseRemappings(a + "\n" + "\r" + "\n" + b)
      == ParseRemappings(a) + [Rule("", None)] + ParseRemappings(b)
  {
    var cr := "\r";
    assert ParseRemappings(cr) == [Rule("", None)] by {
      assert cr[0] == '\r' && |cr| == 1;
      WhitespaceLineRule(cr);
    }
    assert ParseRemappings(cr + "\n" + b) == [Rule("", None)] + ParseRemappings(b) by {
      ParseConcat(cr, b);
    }
    assert a + "\n" + cr + "\n" + b == a + "\n" + (cr + "\n" + b);
    ParseConcat(a, cr + "\n" + b);
  }

  /** The table is empty exactly when the file holds nothing but line
      breaks. */
  lemma EmptyTable(text: string)
    ensures ParseRemappings(text) == [] <==> forall i :: 0 <= i < |text| ==> text[i] == '\n'
  {
    assert |ParseRemappings(text)| == |NonEmpty(Split(text, '\n'))|;
    AllPiecesEmpty(text, '\n');
  }

  /* ---------------------------------------------------------------------- */
  /* Properties of the transform                                            */
  /* ---------------------------------------------------------------------- */

  /** `IsImportLine` is the regular expression `^\s*import ` with the `i`
      flag: some run of white space from the start of the line is followed by
      the keyword. */
  lemma ImportLinePattern(line: string)
    ensures IsImportLine(line) <==> exists k: nat :: ImportKeywordAt(line, k) && AllWhitespace(line[..k])
  {
    var m := |line| - |TrimStart(line)|;
    if IsImportLine(line) {
      assert AllWhitespace(line[..m]) && ImportKeywordAt(line, m);
    }
    forall k: nat | ImportKeywordAt(line, k) && AllWhitespace(line[..k])
      ensures IsImportLine(line)
    {
      assert AsciiLower(line[k + 0]) == "import"[0];
      TrimStartAt(line, k);
    }
  }

  /** With a file of line breaks only, every line, import or not, comes back
      unchanged. */
  lemma EmptySourceUnchanged(text: string, line: string)
    requires forall i :: 0 <= i < |text| ==> text[i] == '\n'
    ensures Remapped(line, ParseRemappings(text)) == line
  {
    EmptyTable(text);
  }

  /** The first rule, in table order, whose `from` occurs is the one
      `FirstMatch` finds. */
  lemma FirstMatchIs(line: string, table: seq<Rule>, k: nat)
    requires k < |table| && Includes(line, table[k].from)
    requires forall j :: 0 <= j < k ==> !Includes(line, table[j].from)
    ensures FirstMatch(line, table) == Some(k)
  {
    var r := FirstMatch(line, table);
    assert r.Some?;
    assert !(r.value < k);
    assert !(k < r.value);
  }

  /** On an import line, `transform` performs the `replace` of the earliest
      rule whose `from` occurs in the line. */
  lemma RemappedByRule(line: string, table: seq<Rule>, k: nat)
    requires IsImportLine(line)
    requires k < |table| && Includes(line, table[k].from)
    requires forall j :: 0 <= j < k ==> !Includes(line, table[j].from)
    ensures Remapped(line, table) == ReplaceFirst(line, table[k].from, ReplacementText(table[k].to))
  {
    FirstMatchIs(line, table, k);
  }

  /** On an import line, the earliest rule `k` whose `from` occurs is the one
      applied, at the first occurrence `i` of its `from`. */
  lemma FirstRuleApplies(line: string, table: seq<Rule>, k: nat, i: nat)
    requires IsImportLine(line)
    requires k < |table| && forall j :: 0 <= j < k ==> !Includes(line, table[j].from)
    requires OccursAt(line, table[k].from, i)
    requires forall j :: 0 <= j < i ==> !OccursAt(line, table[k].from, j)
    ensures var from, text := table[k].from, ReplacementText(table[k].to);
      Remapped(line, table) == ReplaceAt(line, from, text, i)
  {
    var from, text := table[k].from, ReplacementText(table[k].to);
    assert Remapped(line, table) == ReplaceFirst(line, from, text) by {
      assert Includes(line, from);
      RemappedByRule(line, table, k);
    }
    ReplaceFirstAt(line, from, text, i);
  }

  /** As `FirstRuleApplies`, for a replacement without `$`: the replacement
      is inserted as it is, and the line grows by `|to| - |from|`. */
  lemma FirstRuleAppliesLiterally(line: string, table: seq<Rule>, k: nat, i: nat)
    requires IsImportLine(line)
    requires k < |table| && forall j :: 0 <= j < k ==> !Includes(line, table[j].from)
    requires OccursAt(line, table[k].from, i)
    requires forall j :: 0 <= j < i ==> !OccursAt(line, table[k].from, j)
    requires '$' !in ReplacementText(table[k].to)
    ensures var from, text := table[k].from, ReplacementText(table[k].to);
      Remapped(line, table) == line[..i] + text + line[i + |from|..]
      && |Remapped(line, table)| == |line| - |from| + |text|
  {
    var from, text := table[k].from, ReplacementText(table[k].to);
    assert Remapped(line, table) == ReplaceFirst(line, from, text) by {
      assert Includes(line, from);
      RemappedByRule(line, table, k);
    }
    ReplaceFirstLiteral(line, from, text, i);
  }

  /** Rules after the first one that occurs in the line play no part. */
  lemma LaterRulesIgnored(line: string, table: seq<Rule>, k: nat)
    requires k < |table| && Includes(line, table[k].from)
    ensures Remapped(line, table) == Remapped(line, table[..k + 1])
  {
    var prefix := table[..k + 1];
    var m := FirstMatch(line, table);
    assert m.Some? && m.value <= k;
    assert FirstMatch(line, prefix) == m by {
      assert forall j :: 0 <= j <= k ==> prefix[j] == table[j];
      FirstMatchIs(line, prefix, m.value);
    }
    assert prefix[m.value] == table[m.value];
  }

  /** A white-space-only rule line at the top of the file matches every
      import line through its empty `from`, and `replace` inserts the string
      "undefined" in front of the line. */
  lemma WhitespaceLinePrefixesImports(blank: string, rest: string, line: string)
    requires blank != "" && '\n' !in blank && AllWhitespace(blank)
    requires IsImportLine(line)
    ensures Remapped(line, ParseRemappings(blank + "\n" + rest)) == "undefined" + line
  {
    var table := ParseRemappings(blank + "\n" + rest);
    assert table[0] == Rule("", None) by {
      ParseConcat(blank, rest);
      WhitespaceLineRule(blank);
    }
    assert OccursAt(line, "", 0);
    assert Remapped(line, table) == ReplaceAt(line, "", "undefined", 0) by {
      FirstRuleApplies(line, table, 0, 0);
    }
    assert ReplaceAt(line, "", "undefined", 0) == "undefined" + line by {
      assert '$' !in ReplacementText(None);
      assert line[..0] == [] && line[0..] == line;
    }
  }

  /** A line that starts with `import ` (no white space before it) is an
      import line. */
  lemma ImportStatement(rest: string)
    ensures IsImportLine("import " + rest)
  {
    var line := "import " + rest;
    assert TrimStart(line) == line by {
      assert line[..0] == [] && line[0] == 'i';
      TrimStartAt(line, 0);
    }
    assert ImportKeywordAt(line, 0) by {
      forall i | 0 <= i < 7 ensures line[i] == "import "[i] {
      }
    }
  }

  /** A file whose first line is the rule `from=to` parses to that rule
      followed by the rules of the rest of the file. */
  lemma FirstLineRule(from: string, to: string, rest: string)
    requires '=' !in from && '=' !in to && '\n' !in from && '\n' !in to
    requires from == [] || !IsJsWhitespace(from[0])
    requires to == [] || !IsJsWhitespace(to[|to| - 1])
    ensures ParseRemappings(from + "=" + to + "\n" + rest) == [Rule(from, Some(to))] + ParseRemappings(rest)
  {
    var l := from + "=" + to;
    ParseConcat(l, rest);
    ParseSingleLine(l);
    ParseFormattedRule(from, to);
  }

  lemma ImportLineParts(head: string, from: string, tail: string)
    ensures var line, i := "import " + head + from + tail, 7 + |head|;
      IsImportLine(line) && OccursAt(line, from, i)
      && line[..i] == "import " + head && line[i + |from|..] == tail
  {
    var line := "import " + head + from + tail;
    assert line == "import " + (head + from + tail);
    ImportStatement(head + from + tail);
  }

  /** End to end: with `from=to` as the first line of the file, an import line
      `import <head><from><tail>` in which `from` first occurs after `head`
      becomes `import <head><to><tail>`; the later rules are not consulted. */
  lemma ImportPathRemapped(from: string, to: string, rest: string, head: string, tail: string)
    requires '=' !in from && '=' !in to && '\n' !in from && '\n' !in to && '$' !in to
    requires from == [] || !IsJsWhitespace(from[0])
    requires to == [] || !IsJsWhitespace(to[|to| - 1])
    requires forall j :: 0 <= j < 7 + |head| ==> !OccursAt("import " + head + from + tail, from, j)
    ensures Remapped("import " + head + from + tail, ParseRemappings(from + "=" + to + "\n" + rest))
      == "import " + head + to + tail
  {
    var line := "import " + head + from + tail;
    var table := ParseRemappings(from + "=" + to + "\n" + rest);
    var i := 7 + |head|;
    assert table[0] == Rule(from, Some(to)) by { FirstLineRule(from, to, rest); }
    assert IsImportLine(line) && OccursAt(line, from, i)
      && line[..i] == "import " + head && line[i + |from|..] == tail by {
      ImportLineParts(head, from, tail);
    }
    assert ReplacementText(table[0].to) == to;
    assert Remapped(line, table) == line[..i] + to + line[i + |from|..] by {
      FirstRuleAppliesLiterally(line, table, 0, i);
    }
    assert line[..i] + to + line[i + |from|..] == "import " + head + to + tail;
  }

  /** A line whose first non-white-space character is not `i` or `I` (a
      comment, a `pragma`, a blank line) does not match `^\s*import ` and is
      left as it is, whatever the table. */
  lemma CommentedImportUnchanged(line: string, table: seq<Rule>)
    requires LeadingWhitespace(line) == |line|
      || (line[LeadingWhitespace(line)] != 'i' && line[LeadingWhitespace(line)] != 'I')
    ensures Remapped(line, table) == line
  {
    var k := LeadingWhitespace(line);
    assert |line| - |TrimStart(line)| == k;
    if k < |line| {
      assert AsciiLower(line[k]) != "import"[0];
    }
    assert !IsImportLine(line);
  }

  /** The keyword test of `/^\s*import /i` at index `k`: the six letters of
      `import`, each in lower or upper case, then one literal space. */
  lemma ImportKeywordCase(line: string, k: nat)
    ensures ImportKeywordAt(line, k) <==>
      k + 7 <= |line| && line[k + 6] == ' '
      && forall i :: 0 <= i < 6 ==> line[k + i] == "import"[i] || line[k + i] == "IMPORT"[i]
  {
  }
}
