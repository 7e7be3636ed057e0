# Import-path remapping preprocessor (hardhat.config.js)

This project models the one piece of behaviour in the repository's
`hardhat.config.js`: the preprocessor that rewrites Solidity `import` lines
using the rule table in `remappings.txt`. Everything else in that file is
declarative Hardhat configuration.

- `getRemappings` parses the rule table. It splits the file on `"\n"`, drops
  the empty strings (`.filter(Boolean)`), trims each remaining line, and
  splits it on `=`. Destructuring keeps the first two fields as `[from, to]`.
  In the model this is `Remappings.ParseRemappings`. The file contents are a
  string argument, and each rule is a `Rule(from, to)`. `to` is
  `Option<string>`: `None` stands for JavaScript's `undefined`, which is what
  a rule line without `=` gives.
- `transform` handles one source line. A line that does not match
  `/^\s*import /i` is returned unchanged. Otherwise the table is walked in
  order. The first rule whose `from` occurs in the line has its first
  occurrence replaced by `to`, and the walk stops.
  - `Remappings.Transform` is the loop with its early exit.
  - It is proved equal to the specification function `Remappings.Remapped`,
    which is defined through `Remappings.FirstMatch`.
  - The rule table is a parameter. The source re-reads and re-parses the file
    on every import line, which gives the same table while the file is
    unchanged.

`JsStrings` models the JavaScript string built-ins the code relies on, on
`seq<char>`:

- the white-space set shared by the regex class `\s` and `trim` (ECMAScript
  WhiteSpace and LineTerminator);
- `trim`;
- `split` with a one-character separator;
- `indexOf` and `includes`;
- `replace` with a string pattern.

`replace` is modelled together with ECMAScript's GetSubstitution for its
replacement text. `$$`, `$&`, `` $` `` and `$'` are expanded, and every other
character stands for itself. The model therefore does not need to assume that
no `to` contains `$`. The lemmas that say the replacement is inserted
literally carry the condition "no `$` in the replacement" themselves. A `to`
of `undefined` is converted to the string "undefined", exactly as `replace`
does.

Behaviour of the code worth noting:

- A rule line made only of white space (" ", "\r", ...) is not empty, so it
  survives the filter. It becomes a rule with an empty `from` and no `to`.
  - An empty `from` occurs at index 0 of every line. So such a rule, placed
    first, makes every import line start with the text "undefined"
    (`Remappings.WhitespaceLinePrefixesImports`).
- The keyword `import` must be followed by one literal space, not by any
  white space (`Remappings.ImportKeywordCase`).
- Lines are split on `"\n"` only. In a CRLF file, `trim` removes the
  trailing `"\r"` of every non-blank rule line, because `"\r"` is white
  space. A blank line of a CRLF file, however, is the one-character line
  `"\r"`: it survives the filter and becomes the rule with an empty `from`
  and no `to`, where the same blank line of an LF file is dropped
  (`Remappings.CrlfBlankLineKept`, `Remappings.LfBlankLineDropped`).
- A rule line with more than one `=` is not rejected. Its fields after the
  second are dropped.

## Model

| member | source | states |
|---|---|---|
| JsStrings.IsJsWhitespace | hardhat.config.js:12 | the white-space set of `trim` and of `\s` in the regex of line 20: ECMAScript WhiteSpace and LineTerminator characters; its use is stated by `TrimIsUnique` and `ImportLinePattern` |
| JsStrings.LeadingWhitespace | hardhat.config.js:12 | the number of leading white-space characters: all characters before it are white space, and the one at it is not (or the text ends) |
| JsStrings.TrimStart | hardhat.config.js:12 | the result is a suffix of the input; what was dropped is all white space; the result is empty or starts with a non-white-space character |
| JsStrings.TrimEnd | hardhat.config.js:12 | the result is a prefix of the input; what was dropped is all white space; the result is empty or ends with a non-white-space character |
| JsStrings.Trim | hardhat.config.js:12 | `trim`: the result has no white space at either end, and it is empty exactly when the input is all white space |
| JsStrings.TrimStartAt | hardhat.config.js:12 | leading trimming stops exactly at the first non-white-space character |
| JsStrings.TrimEndAt | hardhat.config.js:12 | trailing trimming stops exactly after the last non-white-space character |
| JsStrings.TrimIsUnique | hardhat.config.js:12 | `trim` returns exactly the middle part of any split of the input into white space, a part with non-white-space ends, and white space |
| JsStrings.TrimNoop | hardhat.config.js:12 | a text without white space at its ends is unchanged by `trim` |
| JsStrings.Split | hardhat.config.js:10 | `split` on one character always yields at least one piece |
| JsStrings.JoinSplit | hardhat.config.js:10 | no piece of `split` contains the separator, and joining the pieces with it gives back the text |
| JsStrings.SplitJoin | hardhat.config.js:10 | `split` inverts joining separator-free pieces |
| JsStrings.SplitWithoutSeparator | hardhat.config.js:10 | a text without the separator splits into itself alone |
| JsStrings.SplitConcat | hardhat.config.js:10 | the pieces of `a + sep + b` are the pieces of `a` followed by the pieces of `b` |
| JsStrings.SplitTwo | hardhat.config.js:12 | `from=to` with no `=` on either side splits into exactly `[from, to]` |
| JsStrings.SplitFields | hardhat.config.js:12 | the first piece runs up to the first separator; there is a single piece exactly when the text has no separator; the second piece runs from the first separator to the next one or the end |
| JsStrings.AllPiecesEmpty | hardhat.config.js:10-11 | every piece of `split` is empty exactly when every character is the separator |
| JsStrings.IndexOfFrom | hardhat.config.js:22-23 | the least index at or after the start where the pattern occurs, or none when it occurs nowhere from there |
| JsStrings.IndexOf | hardhat.config.js:22-23 | the search behind `includes` and `replace`: the first index where the pattern occurs, or none when it occurs nowhere |
| JsStrings.Includes | hardhat.config.js:22 | `includes` is true exactly when the pattern occurs at some index |
| JsStrings.IndexOfFirst | hardhat.config.js:23 | `indexOf` returns the first occurrence |
| JsStrings.Expand | hardhat.config.js:23 | the expansion of `$` patterns in a replacement text leaves a text without `$` unchanged |
| JsStrings.ReplaceAt | hardhat.config.js:23 | replacing the occurrence at `i` keeps the text before `i` and the text after the occurrence; without `$` the inserted text is the replacement itself |
| JsStrings.ReplaceFirst | hardhat.config.js:23 | `replace` leaves a text that does not contain the pattern unchanged |
| JsStrings.ReplaceFirstAt | hardhat.config.js:23 | `replace` rewrites the first occurrence of the pattern |
| JsStrings.ReplaceFirstLiteral | hardhat.config.js:23 | with no `$` in the replacement, the result is the prefix, the replacement, and the unchanged rest, and its length is the old length minus the pattern's plus the replacement's |
| Remappings.ParseRemappings | hardhat.config.js:7-13 | `getRemappings`: at most one rule per line of the file, and no rule's `from` or `to` holds `=` |
| Remappings.ParseLine | hardhat.config.js:12 | the `.map` callback: `from` holds no `=`; `to` is absent exactly when the trimmed line has no `=`, and holds no `=` when present |
| Remappings.NonEmpty | hardhat.config.js:11 | `.filter(Boolean)` keeps only non-empty strings and gives an empty list exactly when every input string is empty |
| Remappings.ParseAll | hardhat.config.js:12 | one rule per line, rule `i` parsed from line `i` |
| Remappings.ParseLineFields | hardhat.config.js:12 | `from` is the trimmed line up to its first `=`; `to` is absent exactly when there is no `=`; otherwise `to` runs from the first `=` to the second `=` or the end, and neither field holds `=` |
| Remappings.ParseFormattedRule | hardhat.config.js:12 | writing a rule as `from=to` and parsing it gives the rule back, when neither side holds `=` and there is no white space at the line's ends |
| Remappings.WhitespaceLineRule | hardhat.config.js:11-12 | a non-empty white-space-only line becomes the rule with empty `from` and no `to` |
| Remappings.NonEmptyConcat | hardhat.config.js:11 | the filter distributes over concatenation |
| Remappings.NonEmptyKeepsAll | hardhat.config.js:11 | the filter keeps a list of non-empty strings as it is |
| Remappings.ParseSingleLine | hardhat.config.js:10-12 | a text without a line break gives no rule if it is empty and one rule otherwise |
| Remappings.ParseConcat | hardhat.config.js:10-12 | parsing keeps line order: the rules of `a + "\n" + b` are those of `a` followed by those of `b` |
| Remappings.ParseLines | hardhat.config.js:10-12 | a file made of given lines yields one rule per non-empty line in file order, and rule `k` comes from line `k` when no line is empty |
| Remappings.LfBlankLineDropped | hardhat.config.js:10-11 | a blank line of an LF file adds no rule |
| Remappings.CrlfBlankLineKept | hardhat.config.js:10-12 | a blank line of a CRLF file adds the rule with empty `from` and no `to` |
| Remappings.EmptyTable | hardhat.config.js:10-11 | the table is empty exactly when the file holds nothing but line breaks |
| Remappings.FirstLineRule | hardhat.config.js:10-12 | a file starting with the line `from=to` yields that rule followed by the rules of the rest |
| Remappings.AsciiLower | hardhat.config.js:20 | the case folding of the `i` flag: exactly the upper-case ASCII letters change, each into the lower-case letter at the same place in the alphabet, and the result is a lower-case letter exactly when the input is an ASCII letter |
| Remappings.ImportKeywordAt | hardhat.config.js:20 | `import` in any letter case followed by one literal space starts at the given index; its use is stated by `ImportLinePattern` |
| Remappings.IsImportLine | hardhat.config.js:20 | `/^\s*import /i` matches the line; characterised by `ImportLinePattern` |
| Remappings.ImportKeywordCase | hardhat.config.js:20 | the keyword matches at `k` exactly when each of the six letters is that of `import` or of `IMPORT` and the seventh character is a literal space |
| Remappings.ImportLinePattern | hardhat.config.js:20 | `IsImportLine` holds exactly when some white-space-only prefix is followed by `import` in any letter case and one space |
| Remappings.ImportStatement | hardhat.config.js:20 | a line that starts with `import ` matches |
| Remappings.CommentedImportUnchanged | hardhat.config.js:20-28 | a line that is blank or whose first non-white-space character is neither `i` nor `I` (a comment, a `pragma`) does not match and comes back unchanged whatever the table |
| Remappings.ReplacementText | hardhat.config.js:23 | the text `replace` inserts for `to`: `undefined` becomes the string "undefined", so a `$` pattern can only come from a `to` in the file |
| Remappings.FirstMatch | hardhat.config.js:21-22 | the index of the earliest rule whose `from` occurs in the line, or none when no rule's does |
| Remappings.FirstMatchIs | hardhat.config.js:21-24 | the earliest occurring rule is the one found |
| Remappings.Remapped | hardhat.config.js:20-28 | a line that does not match, or one in which no rule's `from` occurs, is returned unchanged |
| Remappings.Transform | hardhat.config.js:19-29 | the loop with its early `break` returns exactly `Remapped` of the line and table |
| Remappings.RemappedByRule | hardhat.config.js:20-25 | on an import line, the result is the `replace` of the earliest occurring rule |
| Remappings.FirstRuleApplies | hardhat.config.js:21-25 | the earliest occurring rule is applied at the first occurrence of its `from` |
| Remappings.FirstRuleAppliesLiterally | hardhat.config.js:22-23 | the result is the line up to the first occurrence, then `to`, then the unchanged rest, with length `|line| - |from| + |to|` |
| Remappings.LaterRulesIgnored | hardhat.config.js:21-25 | rules after the first one whose `from` occurs make no difference |
| Remappings.EmptySourceUnchanged | hardhat.config.js:7-28 | with a file of line breaks only, every line comes back unchanged |
| Remappings.WhitespaceLinePrefixesImports | hardhat.config.js:11-23 | a white-space-only first rule line makes every import line come back prefixed with "undefined" |
| Remappings.ImportPathRemapped | hardhat.config.js:7-28 | end to end: with `from=to` as the first rule line, `import <head><from><tail>` becomes `import <head><to><tail>` when `from` first occurs after `head` |

## Left out

- Plugin registration (hardhat.config.js:1-3) is not modelled: it loads foreign libraries with no visible logic.
- The file read (hardhat.config.js:9) is I/O: the file contents are a parameter. Re-reading the file on every import line (line 21) only costs time. The model takes the parsed table as a parameter of `Transform`.
- The `hre` argument and the host's iteration over source files and their lines (hardhat.config.js:18) are not modelled. This is build-tool plumbing.
- The compiler version and directory paths (hardhat.config.js:16, 32-36) are static configuration data with no behaviour.
- JavaScript strings are sequences of UTF-16 code units. The model uses sequences of Unicode characters, so a character outside the Basic Multilingual Plane is one element here and two in JavaScript.
- The regular expression `/^\s*import /i` is modelled directly as a predicate, not through a regex engine. ASCII case folding is all the `i` flag can do to the letters of `import` without the `u` flag.
- GetSubstitution's numbered and named capture patterns (`$1`, `$<name>`) do not apply to a string pattern. They stand for themselves, which `Expand` does.
- JsStrings.Split: its own contract states only that there is at least one piece. What the pieces are is stated by the lemmas `JoinSplit`, `SplitJoin`, `SplitConcat` and `SplitFields`.
- JsStrings.Expand: its own contract states only the case without `$`. The `$$`, `$&`, `` $` `` and `$'` expansions are given by its definition, with no separate lemma.
