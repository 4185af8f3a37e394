/**
 * How `parseYaml` classifies one line (check-i18n.js): blank and comment lines,
 * the `key: value` pattern `^(\s*)(['"]?[^:]+['"]?):\s*(.*)$`, quote stripping,
 * block-scalar indicators and block-scalar continuation lines.
 */
module YamlLines {
  import opened Wrappers
  import opened Text

  /** `line.trim().startsWith('#')`: only a line whose first visible character is `#`. */
  predicate IsComment(line: string) {
    StartsWith(Trim(line), "#")
  }

  predicate NoLineTerminator(s: string) {
    forall i :: 0 <= i < |s| ==> !IsLineTerminator(s[i])
  }

  /** The three capture groups of a successful match: `match[1].length`, `match[2]`, `match[3]`. */
  datatype KeyLine = KeyLine(indent: nat, rawKey: string, rawValue: string)

  /**
   * `line.match(/^(\s*)(['"]?[^:]+['"]?):\s*(.*)$/)`: the indent, the raw key and the
   * raw value, or `None` when the line does not match.
   */
  function MatchKeyLine(line: string): Option<KeyLine>
  {
    match IndexOf(line, ':')
    case None => None
    case Some(c) =>
      var w := LeadingSpace(line);
      var rest := TrimStart(line[c + 1..]);
      LeadingSpaceBeforeColon(line, c);
      if c == 0 || !NoLineTerminator(rest) then None
      else if w < c then Some(KeyLine(w, line[w..c], rest))
      else Some(KeyLine(w - 1, line[w - 1..c], rest))
  }

  /**
   * The literal `:` can only be the first colon of the line, since no group before it
   * admits one; `(.*)$` fails on a line terminator left after the spaces that follow the
   * colon. When the first visible character is the colon itself, the engine backtracks
   * and group 2 is the last leading space, so the indent is one less and the key trims
   * to "".
   */
  lemma MatchKeyLineSpec(line: string)
    ensures var m := MatchKeyLine(line);
      && (m.Some? <==> IndexOf(line, ':').Some? && IndexOf(line, ':').value > 0
                       && NoLineTerminator(TrimStart(line[IndexOf(line, ':').value + 1..])))
      && (m.Some? ==>
            var c := IndexOf(line, ':').value;
            && m.value.indent < c
            && m.value.rawKey == line[m.value.indent..c]
            && ':' !in m.value.rawKey
            && AllSpace(line[..m.value.indent])
            && m.value.rawValue == TrimStart(line[c + 1..]))
      && (m.Some? ==> m.value.indent == LeadingSpace(line)
                      || (m.value.indent + 1 == LeadingSpace(line) && Trim(m.value.rawKey) == []))
  {
    match IndexOf(line, ':')
    case None =>
    case Some(c) =>
      LeadingSpaceBeforeColon(line, c);
      if c > 0 && NoLineTerminator(TrimStart(line[c + 1..])) {
        MatchedGroups(line, c);
      }
  }

  lemma MatchedGroups(line: string, c: nat)
    requires IndexOf(line, ':') == Some(c) && c > 0 && NoLineTerminator(TrimStart(line[c + 1..]))
    ensures var m := MatchKeyLine(line);
      && m.Some?
      && m.value.indent < c
      && m.value.rawKey == line[m.value.indent..c]
      && ':' !in m.value.rawKey
      && AllSpace(line[..m.value.indent])
      && m.value.rawValue == TrimStart(line[c + 1..])
      && (m.value.indent == LeadingSpace(line)
          || (m.value.indent + 1 == LeadingSpace(line) && Trim(m.value.rawKey) == []))
  {
    var w := LeadingSpace(line);
    var rest := TrimStart(line[c + 1..]);
    LeadingSpaceBeforeColon(line, c);
    if w < c {
      assert MatchKeyLine(line) == Some(KeyLine(w, line[w..c], rest));
      IndentedKey(line, c, w);
    } else {
      assert MatchKeyLine(line) == Some(KeyLine(w - 1, line[w - 1..c], rest));
      BacktrackedKey(line, c);
    }
  }

  /** The usual case: group 1 is all the leading white space and group 2 the rest up to the colon. */
  lemma IndentedKey(line: string, c: nat, w: nat)
    requires IndexOf(line, ':') == Some(c) && w == LeadingSpace(line) && w < c
    ensures ':' !in line[w..c] && AllSpace(line[..w])
  {
    ColonFreeSuffix(line[..c], w);
    assert line[..c][w..] == line[w..c];
  }

  lemma ColonFreeSuffix(s: string, w: nat)
    requires w <= |s| && ':' !in s
    ensures ':' !in s[w..]
  {
    forall i | 0 <= i < |s| - w ensures s[w..][i] != ':' {
      assert s[w..][i] == s[w + i];
    }
  }

  /** The backtracking case: group 2 is the single space just before the colon. */
  lemma BacktrackedKey(line: string, c: nat)
    requires 0 < c == LeadingSpace(line)
    ensures AllSpace(line[..c - 1]) && Trim(line[c - 1..c]) == [] && ':' !in line[c - 1..c]
  {
    var k := line[c - 1..c];
    assert k == line[..c][c - 1..];
    BlankIsAllSpace(k);
    assert line[..c - 1] == line[..c][..c - 1];
  }

  lemma LeadingSpaceBeforeColon(line: string, c: nat)
    requires IndexOf(line, ':') == Some(c)
    ensures LeadingSpace(line) <= c
  {
    var w := LeadingSpace(line);
    if w > c {
    }
  }

  /** One pair of wrapping quotes removed when the string starts and ends with the
      same quote character: `s.slice(1, -1)`, which is "" for a lone quote. */
  function Unquote(s: string): (r: string)
    ensures |s| >= 2 && s[0] == s[|s| - 1] && (s[0] == '"' || s[0] == '\'') ==> r == s[1..|s| - 1]
    ensures |s| == 1 && (s[0] == '"' || s[0] == '\'') ==> r == []
    ensures !(|s| >= 1 && s[0] == s[|s| - 1] && (s[0] == '"' || s[0] == '\'')) ==> r == s
  {
    if |s| >= 1 && (s[0] == '"' || s[0] == '\'') && s[|s| - 1] == s[0] then
      if |s| >= 2 then s[1..|s| - 1] else []
    else s
  }

  /** Quoting with either quote character and unquoting gives the text back. */
  lemma UnquoteQuoted(q: char, t: string)
    requires q == '"' || q == '\''
    ensures Unquote([q] + t + [q]) == t
  {
    var s := [q] + t + [q];
    assert s[1..|s| - 1] == t;
  }

  /** Text that does not start with a quote character, or whose ends differ, is kept as it is. */
  lemma UnquoteUnquoted(s: string)
    requires s == [] || (s[0] != '"' && s[0] != '\'') || s[0] != s[|s| - 1]
    ensures Unquote(s) == s
  {
  }

  /** The key: `match[2].trim()`, unquoted. */
  function KeyOf(m: KeyLine): string {
    Unquote(Trim(m.rawKey))
  }

  /** The value: `match[3].trim()`. */
  function ValueOf(m: KeyLine): string {
    Trim(m.rawValue)
  }

  lemma {:induction false} TrimStartTwice(s: string)
    ensures TrimStart(TrimStart(s)) == TrimStart(s)
  {
  }

  /** A line read from a file with CRLF line endings keeps its final carriage return,
      and a key line that carries a value is then rejected, since `(.*)$` stops before
      the carriage return. */
  lemma CrlfValueRejected(key: string, value: string)
    requires key != [] && ':' !in key && !AllSpace(value)
    ensures MatchKeyLine(key + ":" + value + "\r").None?
  {
    CrlfLine(key, value);
    CrEnds(value);
    MatchKeyLineSpec(key + ":" + value + "\r");
  }

  lemma CrlfLine(key: string, value: string)
    requires ':' !in key
    ensures var line := key + ":" + value + "\r";
      IndexOf(line, ':') == Some(|key|) && line[|key| + 1..] == value + "\r"
  {
    var line := key + ":" + value + "\r";
    assert line[|key|] == ':';
  }

  /** The carriage return survives trimming the start of a value that is not all space. */
  lemma CrEnds(value: string)
    requires !AllSpace(value)
    ensures !NoLineTerminator(TrimStart(value + "\r"))
  {
    TrimStartAppend(value, "\r");
    var rest := TrimStart(value) + "\r";
    assert IsLineTerminator(rest[|rest| - 1]);
  }

  /** The key is the text before the first colon, trimmed and unquoted; the value is the
      text after it, trimmed. This holds in the backtracking case too. */
  lemma KeyAndValueOfLine(line: string)
    requires MatchKeyLine(line).Some?
    ensures var c := IndexOf(line, ':').value;
      && KeyOf(MatchKeyLine(line).value) == Unquote(Trim(line[..c]))
      && ValueOf(MatchKeyLine(line).value) == Trim(line[c + 1..])
  {
    MatchKeyLineSpec(line);
    KeyAndValueOf(line, IndexOf(line, ':').value, MatchKeyLine(line).value);
  }

  lemma KeyAndValueOf(line: string, c: nat, m: KeyLine)
    requires c < |line| && m.indent <= c && m.rawKey == line[m.indent..c]
    requires AllSpace(line[..m.indent]) && m.rawValue == TrimStart(line[c + 1..])
    ensures KeyOf(m) == Unquote(Trim(line[..c])) && ValueOf(m) == Trim(line[c + 1..])
  {
    KeyAfterIndent(line, c, m);
    TrimStartTwice(line[c + 1..]);
  }

  lemma KeyAfterIndent(line: string, c: nat, m: KeyLine)
    requires c < |line| && m.indent <= c && m.rawKey == line[m.indent..c]
    requires AllSpace(line[..m.indent])
    ensures Trim(m.rawKey) == Trim(line[..c])
  {
    var pre := line[..c];
    assert pre[..m.indent] == line[..m.indent];
    assert pre[m.indent..] == m.rawKey;
    TrimAfterSpace(pre, m.indent);
  }

  lemma TrimAfterSpace(s: string, i: nat)
    requires i <= |s| && AllSpace(s[..i])
    ensures Trim(s) == Trim(s[i..])
  {
    assert s == s[..i] + s[i..];
    TrimStartSkipsSpace(s[..i], s[i..]);
  }

  /** `value === '|' || value === '>' || value === '|-' || value === '>-'`. */
  predicate IsBlockIndicator(v: string) {
    v == "|" || v == ">" || v == "|-" || v == ">-"
  }

  /** `value === '' || value === '{}'`: an empty value or an inline empty mapping. */
  predicate OpensMapping(v: string) {
    v == "" || v == "{}"
  }

  /** While a block scalar is open: `line.search(/\S/) > multilineIndent || line.trim() === ''`. */
  predicate Continues(line: string, indent: int) {
    FirstNonSpace(line) > indent || IsBlank(line)
  }

  /** A continuation line is blank, or every column up to and including the key's indent is space. */
  lemma ContinuesMeaning(line: string, indent: nat)
    ensures Continues(line, indent) <==>
      (AllSpace(line) || (indent < |line| && AllSpace(line[..indent + 1])))
  {
    BlankIsAllSpace(line);
    var f := FirstNonSpace(line);
    if f > indent {
      assert line[..indent + 1] == line[..f][..indent + 1];
    } else if f >= 0 {
      assert !IsSpace(line[f]);
      if indent < |line| {
        assert line[..indent + 1][f] == line[f];
      }
    }
  }
}
