/**
 * The string helpers of the record normaliser: Python's `str.find`, `in`, `split`, `join`,
 * `strip`, `replace(' ', '')`, `int()` on digit strings, and the cell clean-up
 * `normalize_csv_file`, whose two regular expressions are written out as scans.
 */
module Text {
  import opened Seqs

  /**
   * Python's `str.isspace`, which is also what the pattern `\s` matches on `str` values:
   * the ASCII controls TAB to CR, the separators 0x1C-0x1F, space, NEL, NBSP and the Unicode spaces.
   */
  predicate IsSpace(c: char) {
    || c == ' ' || ('\t' <= c <= '\r') || ('\U{1C}' <= c <= '\U{1F}')
    || c == '\U{85}' || c == '\U{A0}' || c == '\U{1680}' || ('\U{2000}' <= c <= '\U{200A}')
    || c == '\U{2028}' || c == '\U{2029}' || c == '\U{202F}' || c == '\U{205F}' || c == '\U{3000}'
  }

  ghost predicate OccursAt(s: string, sub: string, i: int) {
    0 <= i && i + |sub| <= |s| && s[i..i + |sub|] == sub
  }

  /** `s.find(sub)`: the first position where `sub` occurs, or -1 when it does not occur. */
  function IndexOf(s: string, sub: string): (r: int)
    ensures -1 <= r && (r >= 0 ==> r + |sub| <= |s|)
  {
    if |s| < |sub| then -1
    else if s[..|sub|] == sub then 0
    else
      var j := IndexOf(s[1..], sub);
      if j < 0 then -1 else j + 1
  }

  /** `find` answers with an occurrence, and no occurrence lies before it; -1 means there is none at all. */
  lemma {:induction false} IndexOfFirst(s: string, sub: string)
    ensures var r := IndexOf(s, sub);
      && (r >= 0 ==> OccursAt(s, sub, r))
      && forall i :: 0 <= i < (if r < 0 then |s| + 1 else r) ==> !OccursAt(s, sub, i)
  {
    if |s| >= |sub| && s[..|sub|] != sub {
      var j := IndexOf(s[1..], sub);
      IndexOfFirst(s[1..], sub);
      forall i | 1 <= i <= |s| && OccursAt(s, sub, i) ensures OccursAt(s[1..], sub, i - 1) {
        assert s[1..][i - 1..i - 1 + |sub|] == s[i..i + |sub|];
      }
      if j >= 0 {
        assert s[1..][j..j + |sub|] == s[j + 1..j + 1 + |sub|];
      }
    }
  }

  /** Python's `sub in s`. */
  predicate Contains(s: string, sub: string) {
    IndexOf(s, sub) != -1
  }

  /** `sub in s` holds exactly when `sub` occurs somewhere in `s` (both directions). */
  lemma ContainsIffOccurs(s: string, sub: string)
    ensures Contains(s, sub) <==> exists i :: OccursAt(s, sub, i)
  {
    IndexOfFirst(s, sub);
    if exists i :: OccursAt(s, sub, i) {
      var i :| OccursAt(s, sub, i);
      assert i <= |s|;
    }
  }

  /** For a one-character pattern, `s.find(c) == -1` exactly when `c` is not a character of `s`. */
  lemma IndexOfChar(s: string, c: char)
    ensures IndexOf(s, [c]) == -1 <==> c !in s
  {
    var r := IndexOf(s, [c]);
    IndexOfFirst(s, [c]);
    if r >= 0 {
      assert s[r] == s[r..r + 1][0];
    }
    if c in s {
      var i :| 0 <= i < |s| && s[i] == c;
      assert OccursAt(s, [c], i);
    }
  }

  /** `sep.join(parts)`: the first part, and after it the separator when more parts follow. */
  function Join(parts: seq<string>, sep: string): (r: string)
  {
    if parts == [] then ""
    else if |parts| == 1 then parts[0]
    else parts[0] + sep + Join(parts[1..], sep)
  }

  /** The joined text starts with the first part, and with the separator after it when more parts follow. */
  lemma JoinParts(parts: seq<string>, sep: string)
    ensures parts != [] ==> parts[0] <= Join(parts, sep)
    ensures |parts| > 1 ==> parts[0] + sep <= Join(parts, sep)
  {
    if |parts| > 1 {
      assert Join(parts, sep) == (parts[0] + sep) + Join(parts[1..], sep);
    }
  }

  /** `s.split(sep)` for a non-empty separator: the text before the first `sep`, then the split of the rest. */
  function Split(s: string, sep: string): (r: seq<string>)
    requires sep != ""
    ensures |r| >= 1
    decreases |s|
  {
    var i := IndexOf(s, sep);
    if i < 0 then [s] else [s[..i]] + Split(s[i + |sep|..], sep)
  }

  /** Joining the pieces of a split with the same separator gives the text back, and no piece holds `sep`. */
  lemma {:induction false} SplitJoin(s: string, sep: string)
    requires sep != ""
    ensures Join(Split(s, sep), sep) == s
    ensures forall k :: 0 <= k < |Split(s, sep)| ==> IndexOf(Split(s, sep)[k], sep) == -1
    decreases |s|
  {
    var i := IndexOf(s, sep);
    if i >= 0 {
      var rest := Split(s[i + |sep|..], sep);
      SplitJoin(s[i + |sep|..], sep);
      IndexOfFirst(s, sep);
      forall j | 0 <= j < |s[..i]| + 1 ensures !OccursAt(s[..i], sep, j) {
        OccursInPrefix(s, sep, i, j);
      }
      IndexOfFirst(s[..i], sep);
      assert s == s[..i] + sep + s[i + |sep|..];
      assert ([s[..i]] + rest)[1..] == rest;
    }
  }

  /**
   * The cut is at the leftmost occurrence, which matters for a separator that overlaps itself: the
   * first piece is a prefix of the text at none of whose positions `sep` starts, and `sep` follows
   * it when there is more than one piece; with one piece, `sep` occurs nowhere.
   */
  lemma SplitAtFirst(s: string, sep: string)
    requires sep != ""
    ensures var r := Split(s, sep);
      && r[0] <= s
      && (forall i :: 0 <= i < |r[0]| ==> !OccursAt(s, sep, i))
      && (|r| > 1 ==> OccursAt(s, sep, |r[0]|))
      && (|r| == 1 ==> r[0] == s && forall i :: 0 <= i <= |s| ==> !OccursAt(s, sep, i))
  {
    IndexOfFirst(s, sep);
  }

  /** An occurrence that ends inside a prefix is an occurrence in the prefix, and the other way round. */
  lemma OccursInPrefix(s: string, sub: string, n: nat, j: int)
    requires n <= |s|
    ensures j + |sub| <= n ==> (OccursAt(s[..n], sub, j) <==> OccursAt(s, sub, j))
    ensures j + |sub| > n ==> !OccursAt(s[..n], sub, j)
  {
    if 0 <= j && j + |sub| <= n {
      assert s[..n][j..j + |sub|] == s[j..j + |sub|];
    }
  }

  /** The position of the first `<` or `>` at or after `from`, or `|s|` when there is none. */
  function NextBracket(s: string, from: nat): (r: nat)
    requires from <= |s|
    ensures from <= r <= |s|
    ensures r < |s| ==> s[r] == '<' || s[r] == '>'
    ensures forall j :: from <= j < r ==> s[j] != '<' && s[j] != '>'
    decreases |s| - from
  {
    if from == |s| || s[from] == '<' || s[from] == '>' then from else NextBracket(s, from + 1)
  }

  /** The text starts with a match of `<[^<>]*>`: a `<`, then no bracket, then `>`. */
  predicate StartsWithTag(s: string) {
    s != [] && s[0] == '<' && NextBracket(s, 1) < |s| && s[NextBracket(s, 1)] == '>'
  }

  /** `re.sub(r"<[^<>]*>", "", s)`: one left-to-right pass that deletes each tag it meets. */
  function RemoveTags(s: string): (r: string)
    ensures IsSubsequence(r, s)
    ensures '<' !in s ==> r == s
    decreases |s|
  {
    if s == [] then []
    else if StartsWithTag(s) then
      var rest := s[NextBracket(s, 1) + 1..];
      var r := RemoveTags(rest);
      assert IsSubsequence(r, s) by { SkipPrefix(r, s, NextBracket(s, 1) + 1); }
      r
    else
      var r := [s[0]] + RemoveTags(s[1..]);
      assert r[1..] == RemoveTags(s[1..]);
      r
  }

  /** A text that does not open with a tag keeps its first character, even a `<`. */
  lemma RemoveTagsKeepsFirst(s: string)
    requires s != [] && !StartsWithTag(s)
    ensures RemoveTags(s) == [s[0]] + RemoveTags(s[1..])
  {
  }

  /** A `<` right before another `<` opens no tag and is kept. */
  lemma RemoveTagsKeepsOpenBeforeOpen(t: string)
    requires t != [] && t[0] == '<'
    ensures RemoveTags(['<'] + t) == ['<'] + RemoveTags(t)
  {
    var s := ['<'] + t;
    assert NextBracket(s, 1) == 1;
    assert s[1..] == t;
  }

  /** The stray `<` of `"<<b>"` stays, and the tag after it goes: the result is `"<"`. */
  lemma RemoveTagsStrayOpen()
    ensures RemoveTags("<<b>") == "<"
  {
    var tag := "<b>";
    assert "<<b>" == ['<'] + tag;
    RemoveTagsKeepsOpenBeforeOpen(tag);
    assert tag == ['<'] + "b" + ['>'] + "";
    RemoveTagsDeletesTag("b", "");
    assert RemoveTags(tag) == RemoveTags("") == "";
  }

  /** Text without `<` passes through the deletion unchanged, whatever follows it. */
  lemma {:induction false} RemoveTagsPlain(p: string, t: string)
    requires '<' !in p
    ensures RemoveTags(p + t) == p + RemoveTags(t)
    decreases |p|
  {
    if p != [] {
      assert (p + t)[0] == p[0] && (p + t)[1..] == p[1..] + t;
      assert !StartsWithTag(p + t);
      RemoveTagsPlain(p[1..], t);
      assert p == [p[0]] + p[1..];
      assert RemoveTags(p + t) == [p[0]] + (p[1..] + RemoveTags(t));
      assert [p[0]] + (p[1..] + RemoveTags(t)) == ([p[0]] + p[1..]) + RemoveTags(t);
    } else {
      assert p + t == t;
    }
  }

  /** A tag, `<` and then text without brackets and then `>`, is deleted whole. */
  lemma RemoveTagsDeletesTag(t: string, u: string)
    requires '<' !in t && '>' !in t
    ensures RemoveTags(['<'] + t + ['>'] + u) == RemoveTags(u)
  {
    var s := ['<'] + t + ['>'] + u;
    assert s[|t| + 1] == '>';
    assert forall j :: 1 <= j < |t| + 1 ==> s[j] == t[j - 1];
    assert NextBracket(s, 1) == |t| + 1;
    assert s[|t| + 2..] == u;
  }

  /** Without a `>` there is no tag, and nothing is deleted. */
  lemma {:induction false} RemoveTagsWithoutClose(s: string)
    requires '>' !in s
    ensures RemoveTags(s) == s
    decreases |s|
  {
    if s != [] {
      if s[0] == '<' {
        var j := NextBracket(s, 1);
        assert j < |s| ==> s[j] == '<';
      }
      RemoveTagsWithoutClose(s[1..]);
      assert s == [s[0]] + s[1..];
    }
  }

  lemma {:induction false} SkipPrefix(a: string, s: string, n: nat)
    requires n <= |s| && IsSubsequence(a, s[n..])
    ensures IsSubsequence(a, s)
    decreases n
  {
    if n > 0 {
      assert s[1..][n - 1..] == s[n..];
      SkipPrefix(a, s[1..], n - 1);
    }
  }

  /** The pass is single: a tag uncovered by deleting an inner one stays. */
  lemma RemoveTagsIsOnePass()
    ensures RemoveTags("<<b>i>") == "<i>"
  {
    assert !StartsWithTag("<<b>i>");
    assert "<<b>i>"[1..] == "<b>i>";
    assert StartsWithTag("<b>i>");
    assert "<b>i>"[3..] == "i>";
    assert !StartsWithTag("i>") && "i>"[1..] == ">";
    assert !StartsWithTag(">") && ">"[1..] == "";
  }

  /** The suffix of `s` after its leading whitespace (`str.lstrip()`). */
  function StripLeft(s: string): (r: string)
    ensures |r| <= |s|
  {
    if s != [] && IsSpace(s[0]) then StripLeft(s[1..]) else s
  }

  /** `lstrip` drops exactly the leading run of whitespace: what it keeps is a suffix that starts with a non-space. */
  lemma {:induction false} StripLeftDropsSpaces(s: string)
    ensures var r := StripLeft(s);
      && r == s[|s| - |r|..]
      && (r == [] || !IsSpace(r[0]))
      && forall i :: 0 <= i < |s| - |r| ==> IsSpace(s[i])
  {
    if s != [] && IsSpace(s[0]) {
      StripLeftDropsSpaces(s[1..]);
    }
  }

  /** The prefix of `s` before its trailing whitespace (`str.rstrip()`). */
  function StripRight(s: string): (r: string)
    ensures |r| <= |s|
  {
    if s != [] && IsSpace(s[|s| - 1]) then StripRight(s[..|s| - 1]) else s
  }

  /** `rstrip` drops exactly the trailing run of whitespace: what it keeps is a prefix that ends with a non-space. */
  lemma {:induction false} StripRightDropsSpaces(s: string)
    ensures var r := StripRight(s);
      && r == s[..|r|]
      && (r == [] || !IsSpace(r[|r| - 1]))
      && forall i :: |r| <= i < |s| ==> IsSpace(s[i])
  {
    if s != [] && IsSpace(s[|s| - 1]) {
      StripRightDropsSpaces(s[..|s| - 1]);
    }
  }

  /** `str.strip()`: what is left has no whitespace at either end and no character that was not there. */
  function Strip(s: string): (r: string)
    ensures r == [] || (!IsSpace(r[0]) && !IsSpace(r[|r| - 1]))
    ensures forall c :: c in r ==> c in s
    ensures NoAdjacentSpaces(s) ==> NoAdjacentSpaces(r)
  {
    var l := StripLeft(s);
    var r := StripRight(l);
    StripLeftDropsSpaces(s);
    StripRightDropsSpaces(l);
    assert forall i :: 0 <= i < |r| ==> r[i] == s[|s| - |l| + i];
    r
  }

  predicate NoAdjacentSpaces(s: string) {
    forall i :: 0 <= i < |s| - 1 ==> !(IsSpace(s[i]) && IsSpace(s[i + 1]))
  }

  /** The characters of `s` that are not whitespace, in order. */
  function NonSpace(s: string): string {
    if s == [] then [] else (if IsSpace(s[0]) then [] else [s[0]]) + NonSpace(s[1..])
  }

  /**
   * The scan behind `re.sub(r"\s+", " ", s)`: `inRun` says the previous character was whitespace,
   * so a whitespace character here continues a run that already produced its one space.
   */
  function CollapseRun(s: string, inRun: bool): (r: string)
    ensures |r| <= |s|
  {
    if s == [] then []
    else if IsSpace(s[0]) then
      if inRun then CollapseRun(s[1..], true) else [' '] + CollapseRun(s[1..], true)
    else [s[0]] + CollapseRun(s[1..], false)
  }

  /**
   * The scan never puts out two whitespace characters in a row, its only whitespace is the plain
   * space, and it opens with whitespace only when the text does, outside a run.
   */
  lemma {:induction false} CollapseRunShape(s: string, inRun: bool)
    ensures var r := CollapseRun(s, inRun);
      && NoAdjacentSpaces(r)
      && (forall i :: 0 <= i < |r| && IsSpace(r[i]) ==> r[i] == ' ')
      && (r != [] && IsSpace(r[0]) ==> !inRun && s != [] && IsSpace(s[0]))
  {
    if s != [] {
      CollapseRunShape(s[1..], IsSpace(s[0]));
    }
  }

  /** `re.sub(r"\s+", " ", s)`: every maximal run of whitespace becomes one space. */
  function CollapseSpaces(s: string): (r: string)
    ensures NoAdjacentSpaces(r)
    ensures forall i :: 0 <= i < |r| && IsSpace(r[i]) ==> r[i] == ' '
  {
    CollapseRunShape(s, false);
    CollapseRun(s, false)
  }

  /** Collapsing whitespace keeps every other character, in order. */
  lemma {:induction false} CollapseKeepsText(s: string, inRun: bool)
    ensures NonSpace(CollapseRun(s, inRun)) == NonSpace(s)
  {
    if s != [] {
      var r := CollapseRun(s, inRun);
      var rest := CollapseRun(s[1..], IsSpace(s[0]));
      CollapseKeepsText(s[1..], IsSpace(s[0]));
      if r != rest {
        assert r[1..] == rest;
      }
    }
  }

  /** Whether the scan is inside a whitespace run after reading `a`, having started with `inRun`. */
  function RunAfter(a: string, inRun: bool): bool {
    if a == [] then inRun else IsSpace(a[|a| - 1])
  }

  /** The scan of `a + x` is the scan of `a`, then the scan of `x` in the state `a` left it in. */
  lemma {:induction false} CollapseRunAppend(a: string, x: string, inRun: bool)
    ensures CollapseRun(a + x, inRun) == CollapseRun(a, inRun) + CollapseRun(x, RunAfter(a, inRun))
    decreases |a|
  {
    if a != [] {
      var c, flag := a[0], IsSpace(a[0]);
      var y := CollapseRun(x, RunAfter(a, inRun));
      calc {
        CollapseRun(a + x, inRun);
      == { assert a + x == [c] + (a[1..] + x); CollapseRunCons(c, a[1..] + x, inRun); }
        ScanChar(c, inRun) + CollapseRun(a[1..] + x, flag);
      == { CollapseRunAppend(a[1..], x, flag); assert RunAfter(a, inRun) == RunAfter(a[1..], flag); }
        ScanChar(c, inRun) + (CollapseRun(a[1..], flag) + y);
      == { CollapseRunCons(c, a[1..], inRun); assert [c] + a[1..] == a; }
        CollapseRun(a, inRun) + y;
      }
    } else {
      assert a + x == x;
    }
  }

  /** What the scan puts out for one character, given whether it is inside a run. */
  function ScanChar(c: char, inRun: bool): string {
    if !IsSpace(c) then [c] else if inRun then [] else " "
  }

  /** One step of the scan. */
  lemma CollapseRunCons(c: char, t: string, inRun: bool)
    ensures CollapseRun([c] + t, inRun) == ScanChar(c, inRun) + CollapseRun(t, IsSpace(c))
  {
    assert ([c] + t)[0] == c && ([c] + t)[1..] == t;
  }

  /** A run of whitespace yields one space when it opens a run and nothing when it continues one. */
  lemma {:induction false} CollapseRunOfSpaces(w: string, inRun: bool)
    requires w != [] && forall i :: 0 <= i < |w| ==> IsSpace(w[i])
    ensures CollapseRun(w, inRun) == if inRun then [] else " "
    decreases |w|
  {
    if |w| > 1 {
      CollapseRunOfSpaces(w[1..], true);
    }
  }

  /** A run of whitespace that opens the text becomes one space before the scan of the rest. */
  lemma CollapseRunLeadingSpaces(w: string, b: string)
    requires w != [] && forall i :: 0 <= i < |w| ==> IsSpace(w[i])
    requires b == [] || !IsSpace(b[0])
    ensures CollapseRun(w + b, false) == " " + CollapseRun(b, false)
  {
    CollapseRunAppend(w, b, false);
    CollapseRunOfSpaces(w, false);
    assert CollapseRun(b, true) == CollapseRun(b, false);
  }

  /** A maximal run of whitespace between two texts becomes exactly one space. */
  lemma CollapseSpacesRun(a: string, w: string, b: string)
    requires a == [] || !IsSpace(a[|a| - 1])
    requires w != [] && forall i :: 0 <= i < |w| ==> IsSpace(w[i])
    requires b == [] || !IsSpace(b[0])
    ensures CollapseSpaces(a + w + b) == CollapseSpaces(a) + " " + CollapseSpaces(b)
  {
    assert a + w + b == a + (w + b);
    CollapseRunAppend(a, w + b, false);
    CollapseRunLeadingSpaces(w, b);
  }

  /** A character that is not whitespace is copied as it is. */
  lemma CollapseSpacesKeepsChar(c: char, t: string)
    requires !IsSpace(c)
    ensures CollapseSpaces([c] + t) == [c] + CollapseSpaces(t)
  {
    assert ([c] + t)[1..] == t;
  }

  /** The separator `csv_filter` puts where a cell had a line break. */
  const NewlineSentinel: string := "__temp__"

  /** A cell without a line break comes out of the split and the sentinel join unchanged. */
  lemma SentinelJoinKeepsLine(cell: string)
    requires '\n' !in cell
    ensures Join(Split(cell, "\n"), NewlineSentinel) == cell
  {
    IndexOfChar(cell, '\n');
  }

  /**
   * `normalize_csv_file`: line breaks become the sentinel, tags are deleted, whitespace runs
   * collapse to one space and the ends are stripped.
   */
  function NormalizeCell(cell: string): (r: string)
    ensures '\n' !in r
    ensures r == [] || (!IsSpace(r[0]) && !IsSpace(r[|r| - 1]))
    ensures NoAdjacentSpaces(r)
  {
    var withSentinel := Join(Split(cell, "\n"), NewlineSentinel);
    var collapsed := CollapseSpaces(RemoveTags(withSentinel));
    assert '\n' !in collapsed by {
      assert IsSpace('\n');
    }
    Strip(collapsed)
  }

  /** `s.replace(' ', '')`: every space goes, and every other character stays, in order. */
  function RemoveSpaces(s: string): (r: string)
    ensures ' ' !in r
    ensures IsSubsequence(r, s)
    ensures forall c :: c != ' ' ==> multiset(r)[c] == multiset(s)[c]
    ensures ' ' !in s ==> r == s
  {
    if s == [] then []
    else
      assert s == [s[0]] + s[1..];
      if s[0] == ' ' then RemoveSpaces(s[1..])
      else
        var r := [s[0]] + RemoveSpaces(s[1..]);
        assert r[1..] == RemoveSpaces(s[1..]);
        r
  }

  predicate IsDigit(c: char) { '0' <= c <= '9' }

  /** A non-empty string of ASCII digits: what `int()` is given here. */
  predicate IsNumeral(s: string) {
    s != [] && forall i :: 0 <= i < |s| ==> IsDigit(s[i])
  }

  /** `10` to the power `k`. */
  function Pow10(k: nat): (r: nat)
    ensures r >= 1
  {
    if k == 0 then 1 else 10 * Pow10(k - 1)
  }

  /** `int(s)` on a numeral: its decimal value, which is below ten to the number of digits. */
  function ParseNat(s: string): (r: nat)
    requires IsNumeral(s)
    ensures r < Pow10(|s|)
  {
    if |s| == 1 then (s[0] as int - '0' as int)
    else ParseNat(s[..|s| - 1]) * 10 + (s[|s| - 1] as int - '0' as int)
  }

  /** `str(n)`: the decimal numeral of `n`, without leading zeros. */
  function Decimal(n: nat): (r: string)
    ensures IsNumeral(r)
  {
    if n < 10 then [('0' as int + n) as char]
    else Decimal(n / 10) + [('0' as int + n % 10) as char]
  }

  /** A numeral that does not start with `0` has as many digits as its value needs. */
  lemma {:induction false} ParseNatLeading(s: string)
    requires IsNumeral(s) && s[0] != '0'
    ensures ParseNat(s) >= Pow10(|s| - 1)
  {
    if |s| > 1 {
      ParseNatLeading(s[..|s| - 1]);
    }
  }

  /** Round trip the other way: a numeral without leading zeros is `str(int(s))`. */
  lemma {:induction false} DecimalOfParse(s: string)
    requires IsNumeral(s) && (s[0] != '0' || |s| == 1)
    ensures Decimal(ParseNat(s)) == s
  {
    if |s| > 1 {
      var p := s[..|s| - 1];
      ParseNatLeading(p);
      DecimalOfParse(p);
      var n := ParseNat(s);
      assert n / 10 == ParseNat(p) && n % 10 == s[|s| - 1] as int - '0' as int;
      assert s == p + [s[|s| - 1]];
    }
  }

  /** Round trip: `int(str(n)) == n`. */
  lemma {:induction false} ParseDecimal(n: nat)
    ensures ParseNat(Decimal(n)) == n
  {
    if n >= 10 {
      ParseDecimal(n / 10);
      assert Decimal(n)[..|Decimal(n)| - 1] == Decimal(n / 10);
    }
  }
}
