/**
 * The string and counter logic of the plugin (src/PluginDefinition.cpp):
 * the line-by-line diff summary, the `commit_<n>.txt` naming scheme and
 * how numbers are read back from it, the replay that rebuilds the commit
 * index from a folder listing, and the rollback that deletes the commits
 * after the viewed one.
 *
 * Wide strings are sequences of characters; the file system is the listing
 * of `.txt` names in the repository folder, and the contents of the
 * `.diff` and `.msg` files are functions of the commit number.
 */
module Plugin {
  import opened Options
  import opened AvlSpec

  // ---------------------------------------------------------------------
  // Decimal text of numbers: std::to_wstring and _wtoi
  // ---------------------------------------------------------------------

  predicate IsDigit(c: char) { '0' <= c <= '9' }

  function DigitChar(d: nat): char
    requires d < 10
  {
    "0123456789"[d]
  }

  function DigitValue(c: char): nat
    requires IsDigit(c)
  {
    (c as int - '0' as int) as nat
  }

  /** The decimal text of a non-negative number, without leading zeros. */
  function NatToString(n: nat): (s: string)
    ensures |s| >= 1 && forall i :: 0 <= i < |s| ==> IsDigit(s[i])
    ensures IsDigit(s[0]) && (|s| > 1 ==> s[0] != '0')
  {
    if n < 10 then [DigitChar(n)] else NatToString(n / 10) + [DigitChar(n % 10)]
  }

  /** std::to_wstring of an int: a minus sign before the magnitude of a negative number. */
  function IntToString(i: int): (s: string)
    ensures |s| >= 1 && forall j :: 0 <= j < |s| ==> s[j] == '-' || IsDigit(s[j])
  {
    if i < 0 then "-" + NatToString(-i) else NatToString(i)
  }

  /** The value of a run of digits, most significant first. */
  function DigitsValue(s: string): nat
    requires forall i :: 0 <= i < |s| ==> IsDigit(s[i])
  {
    if s == [] then 0 else 10 * DigitsValue(s[..|s| - 1]) + DigitValue(s[|s| - 1])
  }

  /** The longest prefix of `s` made of digits. */
  function LeadingDigits(s: string): (d: string)
    ensures |d| <= |s| && d == s[..|d|]
    ensures forall i :: 0 <= i < |d| ==> IsDigit(d[i])
    ensures |d| < |s| ==> !IsDigit(s[|d|])
  {
    if s == [] || !IsDigit(s[0]) then [] else [s[0]] + LeadingDigits(s[1..])
  }

  /** The white-space characters the C runtime skips before a number. */
  predicate IsSpace(c: char) { c == ' ' || c == '\t' || c == '\n' || c == '\r' || c == '\U{B}' || c == '\U{C}' }

  function SkipSpaces(s: string): (r: string)
    ensures |r| <= |s| && r == s[|s| - |r|..]
    ensures r == [] || !IsSpace(r[0])
  {
    if s != [] && IsSpace(s[0]) then SkipSpaces(s[1..]) else s
  }

  /**
   * _wtoi: leading white space is skipped, one optional sign is read, then
   * as many digits as follow; text without digits there reads as 0.
   */
  function Atoi(s: string): (r: int)
    ensures var t := SkipSpaces(s);
            var signed := t != [] && (t[0] == '-' || t[0] == '+');
            var digits := LeadingDigits(if signed then t[1..] else t);
            (digits == [] ==> r == 0) && (r < 0 ==> t[0] == '-') && (r > 0 ==> digits != [])
  {
    var t := SkipSpaces(s);
    if t != [] && t[0] == '-' then -(DigitsValue(LeadingDigits(t[1..])) as int)
    else if t != [] && t[0] == '+' then DigitsValue(LeadingDigits(t[1..]))
    else DigitsValue(LeadingDigits(t))
  }

  lemma DigitRoundTrip(d: nat)
    requires d < 10
    ensures IsDigit(DigitChar(d)) && DigitValue(DigitChar(d)) == d
  {
  }

  /** Reading back the digits of a number gives the number. */
  lemma {:induction false} DigitsOfNat(n: nat)
    ensures DigitsValue(NatToString(n)) == n
  {
    var s := NatToString(n);
    if n < 10 {
      DigitRoundTrip(n);
    } else {
      DigitsOfNat(n / 10);
      DigitRoundTrip(n % 10);
      assert s[..|s| - 1] == NatToString(n / 10);
    }
  }

  /** A string made only of digits is its own run of leading digits. */
  lemma {:induction false} AllDigitsLead(s: string)
    requires forall i :: 0 <= i < |s| ==> IsDigit(s[i])
    ensures LeadingDigits(s) == s
  {
    if s != [] {
      AllDigitsLead(s[1..]);
    }
  }

  /** _wtoi reads back a run of digits that starts the text. */
  lemma NatRoundTrip(m: nat)
    ensures Atoi(NatToString(m)) == m
  {
    var d := NatToString(m);
    DigitsOfNat(m);
    AllDigitsLead(d);
    assert !IsSpace(d[0]) && d[0] != '-' && d[0] != '+';
    assert SkipSpaces(d) == d;
  }

  /** _wtoi reads back a minus sign followed by the digits of a number. */
  lemma NegRoundTrip(m: nat)
    ensures Atoi("-" + NatToString(m)) == -(m as int)
  {
    var d := NatToString(m);
    var s := "-" + d;
    DigitsOfNat(m);
    AllDigitsLead(d);
    assert s[0] == '-' && s[1..] == d;
    assert SkipSpaces(s) == s;
    assert Atoi(s) == -(DigitsValue(LeadingDigits(d)) as int);
  }

  /** _wtoi reads back what std::to_wstring wrote. */
  lemma IntRoundTrip(i: int)
    ensures Atoi(IntToString(i)) == i
  {
    if i < 0 {
      var m: nat := -i;
      NegRoundTrip(m);
      assert IntToString(i) == "-" + NatToString(m);
    } else {
      NatRoundTrip(i);
      assert IntToString(i) == NatToString(i);
    }
  }

  // ---------------------------------------------------------------------
  // computeDiffSummary (src/PluginDefinition.cpp:691-711)
  // ---------------------------------------------------------------------

  /** Position of the first line break in `s`, or `|s|` when there is none. */
  function LineEnd(s: string): (i: nat)
    ensures i <= |s| && (i < |s| ==> s[i] == '\n')
    ensures forall j :: 0 <= j < i ==> s[j] != '\n'
  {
    if s == [] || s[0] == '\n' then 0 else 1 + LineEnd(s[1..])
  }

  /**
   * The lines std::getline delivers from a stream over `s`: the text up to
   * each line break, the break itself dropped, and a last unterminated
   * piece when it is not empty.
   */
  function Lines(s: string): (ls: seq<string>)
    ensures ls == [] <==> s == []
    decreases |s|
  {
    if s == [] then []
    else
      var i := LineEnd(s);
      if i == |s| then [s] else [s[..i]] + Lines(s[i + 1..])
  }

  /** Text made of the given lines, each followed by a line break. */
  function Unlines(ls: seq<string>): string {
    if ls == [] then "" else ls[0] + "\n" + Unlines(ls[1..])
  }

  /** Splitting undoes joining, for lines without breaks of their own. */
  lemma {:induction false} LinesOfUnlines(ls: seq<string>)
    requires forall k :: 0 <= k < |ls| ==> NoBreak(ls[k])
    ensures Lines(Unlines(ls)) == ls
  {
    if ls != [] {
      var l, tail := ls[0], ls[1..];
      assert NoBreak(l);
      var s := Unlines(ls);
      assert s == l + "\n" + Unlines(tail);
      JoinedLine(l, Unlines(tail));
      LineEndAt(s, |l|);
      LinesStep(s, |l|);
      forall k | 0 <= k < |tail| ensures NoBreak(tail[k]) {
        assert tail[k] == ls[k + 1];
      }
      LinesOfUnlines(tail);
      assert ls == [l] + tail;
    }
  }

  /** A text without line breaks. */
  predicate NoBreak(l: string) {
    forall j :: 0 <= j < |l| ==> l[j] != '\n'
  }

  /** Where the pieces of a line followed by a break and more text lie. */
  lemma JoinedLine(l: string, rest: string)
    requires NoBreak(l)
    ensures var s := l + "\n" + rest;
            s[..|l|] == l && s[|l|] == '\n' && s[|l| + 1..] == rest &&
            forall q :: 0 <= q < |l| ==> s[q] != '\n'
  {
    var s := l + "\n" + rest;
    forall q | 0 <= q < |l| ensures s[q] != '\n' {
      assert s[q] == l[q];
    }
  }

  /** The line break `LineEnd` finds is the first one. */
  lemma LineEndAt(s: string, i: nat)
    requires i <= |s| && (i < |s| ==> s[i] == '\n')
    requires forall j :: 0 <= j < i ==> s[j] != '\n'
    ensures LineEnd(s) == i
  {
  }

  /** Number of aligned line pairs that differ. */
  function Differing(a: seq<string>, b: seq<string>): (d: nat)
    ensures d <= |a| && d <= |b|
  {
    if a == [] || b == [] then 0
    else (if a[0] != b[0] then 1 else 0) + Differing(a[1..], b[1..])
  }

  /**
   * The counters the three loops of computeDiffSummary reach: each
   * differing pair counts on both sides, surplus new lines count as added,
   * and surplus old lines count as removed, except the first of them,
   * which the paired loop reads and drops before it sees that the new text
   * has ended.
   */
  function AddedCount(a: seq<string>, b: seq<string>): nat {
    Differing(a, b) + (if |b| > |a| then |b| - |a| else 0)
  }

  function RemovedCount(a: seq<string>, b: seq<string>): nat {
    Differing(a, b) + (if |a| > |b| then |a| - |b| - 1 else 0)
  }

  function SummaryText(added: nat, removed: nat): string {
    "Added: " + NatToString(added) + ", Removed: " + NatToString(removed)
  }

  /**
   * One std::getline on a stream over `s` positioned at `pos`: it fails at
   * the end of the text, and otherwise delivers the next line and moves
   * past it and past its break.
   */
  method GetLine(s: string, pos: nat) returns (ok: bool, line: string, next: nat)
    requires pos <= |s|
    ensures ok <==> pos < |s|
    ensures ok ==> pos < next <= |s| && Lines(s[pos..]) == [line] + Lines(s[next..])
    ensures !ok ==> next == pos && line == ""
  {
    if pos == |s| {
      return false, "", pos;
    }
    var j := pos;
    while j < |s| && s[j] != '\n'
      invariant pos <= j <= |s|
      invariant forall q :: pos <= q < j ==> s[q] != '\n'
    {
      j := j + 1;
    }
    ok, line := true, s[pos..j];
    next := if j < |s| then j + 1 else j;
    LineEndFrom(s, pos, j);
    LinesFrom(s, pos, j);
  }

  /** The lines from `pos` on: the piece up to the break at `j`, then the lines after it. */
  lemma LinesFrom(s: string, pos: nat, j: nat)
    requires pos < |s| && pos <= j <= |s| && LineEnd(s[pos..]) == j - pos
    ensures Lines(s[pos..]) == [s[pos..j]] + Lines(s[if j < |s| then j + 1 else j..])
  {
    var t := s[pos..];
    LinesStep(t, j - pos);
    assert t[..j - pos] == s[pos..j];
    if j < |s| {
      assert t[j - pos + 1..] == s[j + 1..];
    } else {
      assert s[j..] == [];
    }
  }

  /** Where the first line break from `pos` on lies, seen from `pos`. */
  lemma LineEndFrom(s: string, pos: nat, j: nat)
    requires pos <= j <= |s| && (j < |s| ==> s[j] == '\n')
    requires forall q :: pos <= q < j ==> s[q] != '\n'
    ensures LineEnd(s[pos..]) == j - pos
  {
    var t := s[pos..];
    forall q | 0 <= q < j - pos ensures t[q] != '\n' {
      assert t[q] == s[pos + q];
    }
    LineEndAt(t, j - pos);
  }

  /** The first line of a non-empty text ends at its first line break or at its end. */
  lemma LinesStep(t: string, j: nat)
    requires t != [] && j == LineEnd(t)
    ensures Lines(t) == [t[..j]] + Lines(if j < |t| then t[j + 1..] else [])
  {
    var rest: string := if j < |t| then t[j + 1..] else [];
    if j == |t| {
      assert t[..j] == t && rest == [] && Lines(rest) == [];
    }
  }

  /** Counts the lines left in a stream, as the two draining loops do. */
  method CountRest(s: string, pos: nat) returns (count: nat)
    requires pos <= |s|
    ensures count == |Lines(s[pos..])|
  {
    count := 0;
    var p := pos;
    var more := true;
    while more
      invariant p <= |s|
      invariant more ==> count + |Lines(s[p..])| == |Lines(s[pos..])|
      invariant !more ==> count == |Lines(s[pos..])|
      decreases |s| - p, more
    {
      var line;
      more, line, p := GetLine(s, p);
      if more {
        count := count + 1;
      }
    }
  }

  /**
   * The first loop of computeDiffSummary: reads a line of the old text,
   * then one of the new text, counts the pair when the two differ, and
   * stops as soon as either read fails. When the old text is the longer,
   * its line read on the last round is lost.
   */
  method CompareAligned(oldText: string, newText: string) returns (changed: nat, op: nat, np: nat)
    ensures op <= |oldText| && np <= |newText|
    ensures changed == Differing(Lines(oldText), Lines(newText))
    ensures |Lines(oldText)| <= |Lines(newText)| ==>
              Lines(oldText[op..]) == [] && Lines(newText[np..]) == Lines(newText)[|Lines(oldText)|..]
    ensures |Lines(oldText)| > |Lines(newText)| ==>
              Lines(oldText[op..]) == Lines(oldText)[|Lines(newText)| + 1..] && Lines(newText[np..]) == []
  {
    ghost var a, b := Lines(oldText), Lines(newText);
    changed, op, np := 0, 0, 0;
    ghost var i: nat := 0;
    ghost var dropped := false;
    var more := true;
    while more
      invariant op <= |oldText| && np <= |newText| && i + (if dropped then 1 else 0) <= |a| && i <= |b|
      invariant Lines(oldText[op..]) == a[i + (if dropped then 1 else 0)..]
      invariant Lines(newText[np..]) == b[i..]
      invariant changed + Differing(a[i..], b[i..]) == Differing(a, b)
      invariant more ==> !dropped
      invariant !more ==> (dropped && i == |b| && i < |a|) || (!dropped && i == |a|)
      decreases more, |oldText| - op
    {
      var okOld, oldLine;
      okOld, oldLine, op := GetLine(oldText, op);
      if !okOld {
        more := false;
      } else {
        var okNew, newLine;
        okNew, newLine, np := GetLine(newText, np);
        if !okNew {
          more, dropped := false, true;
        } else {
          assert a[i..][1..] == a[i + 1..] && b[i..][1..] == b[i + 1..];
          if oldLine != newLine {
            changed := changed + 1;
          }
          i := i + 1;
        }
      }
    }
  }

  /**
   * computeDiffSummary: compares the texts line by line, drains what is
   * left of each, and reports the counters as "Added: <a>, Removed: <r>".
   */
  method ComputeDiffSummary(oldText: string, newText: string) returns (summary: string)
    ensures summary == SummaryText(AddedCount(Lines(oldText), Lines(newText)), RemovedCount(Lines(oldText), Lines(newText)))
  {
    ghost var a, b := Lines(oldText), Lines(newText);
    var changed, op, np := CompareAligned(oldText, newText);
    assert |a| <= |b| ==> |Lines(newText[np..])| == |b| - |a| && |Lines(oldText[op..])| == 0;
    assert |a| > |b| ==> |Lines(oldText[op..])| == |a| - |b| - 1 && |Lines(newText[np..])| == 0;
    var added, removed := changed, changed;
    var restOld := CountRest(oldText, op);
    removed := removed + restOld;
    var restNew := CountRest(newText, np);
    added := added + restNew;
    assert added == AddedCount(a, b) && removed == RemovedCount(a, b);
    summary := SummaryText(added, removed);
  }

  /** Two identical texts differ nowhere. */
  lemma {:induction false} DifferingSelf(a: seq<string>)
    ensures Differing(a, a) == 0
  {
    if a != [] {
      DifferingSelf(a[1..]);
    }
  }

  lemma IdenticalTextsSummary(text: string)
    ensures SummaryText(AddedCount(Lines(text), Lines(text)), RemovedCount(Lines(text), Lines(text))) == "Added: 0, Removed: 0"
  {
    DifferingSelf(Lines(text));
  }

  // ---------------------------------------------------------------------
  // commit_<n>.txt names (src/PluginDefinition.cpp:725-732, 493-498)
  // ---------------------------------------------------------------------

  const Prefix: string := "commit_"
  const Suffix: string := ".txt"

  /** The name under which commit `n` is stored, as every writer of the folder builds it. */
  function CommitFileName(n: int): string {
    Prefix + IntToString(n) + Suffix
  }

  /**
   * The test of InitializeCommitTree: a name is taken when it starts with
   * "commit_", is longer than "commit_" and ".txt" together, and ends with
   * ".txt"; the number text is what lies strictly between the two.
   */
  function AcceptedNumberText(file: string): (r: Option<string>)
    ensures r.Some? ==> |r.value| >= 1 && file == Prefix + r.value + Suffix
  {
    if |file| >= |Prefix| && file[..|Prefix|] == Prefix && |file| > |Prefix| + |Suffix|
       && file[|file| - |Suffix|..] == Suffix
    then
      var middle := file[|Prefix|..|file| - |Suffix|];
      assert file == Prefix + middle + Suffix;
      Some(middle)
    else
      None
  }

  /** Every name of the form "commit_" + text + ".txt" with some text in between is taken, with that text. */
  lemma AcceptedNameForm(middle: string)
    requires |middle| >= 1
    ensures AcceptedNumberText(Prefix + middle + Suffix) == Some(middle)
  {
    var f := Prefix + middle + Suffix;
    assert f[..|Prefix|] == Prefix;
    assert f[|f| - |Suffix|..] == Suffix;
    assert f[|Prefix|..|f| - |Suffix|] == middle;
  }

  /** The commit number InitializeCommitTree reads from a name it takes. */
  function AcceptedNumber(file: string): Option<int> {
    match AcceptedNumberText(file)
    case None => None
    case Some(text) => Some(Atoi(text))
  }

  /** The name of commit `n` is taken and reads back as `n`. */
  lemma CommitFileNameAccepted(n: int)
    ensures AcceptedNumberText(CommitFileName(n)) == Some(IntToString(n))
    ensures AcceptedNumber(CommitFileName(n)) == Some(n)
  {
    AcceptedNameForm(IntToString(n));
    IntRoundTrip(n);
  }

  /** `pat` occurs in `s` at position `i`. */
  predicate OccursAt(s: string, pat: string, i: nat) {
    i + |pat| <= |s| && s[i..i + |pat|] == pat
  }

  /** std::wstring::find: the first position at or after `from` where `pat` occurs. */
  function Find(s: string, pat: string, from: nat): (r: Option<nat>)
    ensures r.Some? ==> from <= r.value && OccursAt(s, pat, r.value)
    ensures forall i :: from <= i && OccursAt(s, pat, i) ==> r.Some? && r.value <= i
    decreases |s| - from
  {
    if from + |pat| > |s| then None
    else if OccursAt(s, pat, from) then Some(from)
    else Find(s, pat, from + 1)
  }

  /** `i` is the first position at or after `from` where `pat` occurs. */
  predicate FirstAt(s: string, pat: string, from: nat, i: nat) {
    from <= i && OccursAt(s, pat, i) && forall q: nat :: from <= q < i ==> !OccursAt(s, pat, q)
  }

  /**
   * The number text viewCommitInReadOnlyDialog cuts out of a path: from
   * just after the first "commit_" to the first ".txt" that follows; no
   * text when either is missing.
   */
  function ViewedNumberText(path: string): (r: Option<string>)
    ensures r.Some? <==> exists p: nat :: FirstAt(path, Prefix, 0, p) && exists e: nat :: FirstAt(path, Suffix, p, e)
    ensures r.Some? ==> exists p: nat :: FirstAt(path, Prefix, 0, p) &&
                          FirstAt(path, Suffix, p, p + |Prefix| + |r.value|) &&
                          r.value == path[p + |Prefix|..p + |Prefix| + |r.value|]
  {
    match Find(path, Prefix, 0)
    case None =>
      assert forall p: nat :: !FirstAt(path, Prefix, 0, p);
      None
    case Some(pos1) =>
      assert FirstAt(path, Prefix, 0, pos1);
      assert forall p: nat :: FirstAt(path, Prefix, 0, p) ==> p == pos1;
      match Find(path, Suffix, pos1)
      case None =>
        assert forall e: nat :: !FirstAt(path, Suffix, pos1, e);
        None
      case Some(pos2) =>
        NoSuffixInPrefix(path, pos1, pos2);
        var text := path[pos1 + |Prefix|..pos2];
        assert FirstAt(path, Suffix, pos1, pos1 + |Prefix| + |text|);
        Some(text)
  }

  /**
   * A ".txt" found from the start of a "commit_" cannot begin inside it,
   * so the length pos2 - (pos1 + 7) the code computes never wraps around.
   */
  lemma NoSuffixInPrefix(path: string, pos1: nat, pos2: nat)
    requires OccursAt(path, Prefix, pos1) && OccursAt(path, Suffix, pos2) && pos1 <= pos2
    ensures pos1 + |Prefix| <= pos2
  {
    assert path[pos2] == '.' by {
      assert path[pos2..pos2 + |Suffix|][0] == path[pos2];
    }
    forall j | pos1 <= j < pos1 + |Prefix| ensures path[j] != '.' {
      assert path[j] == path[pos1..pos1 + |Prefix|][j - pos1];
    }
  }

  /** The first "commit_" of a path is the one after a folder that holds none. */
  lemma PrefixFirst(folder: string, rest: string)
    requires forall i: nat :: !OccursAt(folder, Prefix, i)
    ensures Find(folder + Prefix + rest, Prefix, 0) == Some(|folder|)
  {
    var path := folder + Prefix + rest;
    var p := |folder|;
    assert path[p..p + |Prefix|] == Prefix;
    forall i: nat | i < p ensures !OccursAt(path, Prefix, i) {
      if i + |Prefix| <= p {
        assert path[i..i + |Prefix|] == folder[i..i + |Prefix|];
        assert !OccursAt(folder, Prefix, i);
      } else if i + |Prefix| <= |path| {
        assert path[i..i + |Prefix|][p - i] == path[p] == 'c';
      }
    }
    var r := Find(path, Prefix, 0);
    assert OccursAt(path, Prefix, p);
    assert r.Some? && r.value <= p && OccursAt(path, Prefix, r.value);
  }

  /** With no '.' from `from` on, the first ".txt" is the one appended at the end. */
  lemma SuffixFirst(x: string, from: nat)
    requires from <= |x| && forall j :: from <= j < |x| ==> x[j] != '.'
    ensures Find(x + Suffix, Suffix, from) == Some(|x|)
  {
    var path := x + Suffix;
    assert path[|x|..|x| + |Suffix|] == Suffix;
    forall i: nat | from <= i < |x| ensures !OccursAt(path, Suffix, i) {
      if i + |Suffix| <= |path| {
        assert path[i..i + |Suffix|][0] == x[i];
      }
    }
    var r := Find(path, Suffix, from);
    assert OccursAt(path, Suffix, |x|);
    assert r.Some? && r.value <= |x| && OccursAt(path, Suffix, r.value);
  }

  /**
   * A path made of a folder holding no "commit_", then "commit_", a text
   * without '.', and ".txt" leads the dialog to exactly that text.
   */
  lemma ViewedText(folder: string, d: string)
    requires forall i: nat :: !OccursAt(folder, Prefix, i)
    requires forall j :: 0 <= j < |d| ==> d[j] != '.'
    ensures ViewedNumberText(folder + Prefix + d + Suffix) == Some(d)
  {
    var x := folder + Prefix + d;
    var path := x + Suffix;
    PrefixFirst(folder, d + Suffix);
    assert folder + Prefix + (d + Suffix) == path;
    forall j | |folder| <= j < |x| ensures x[j] != '.' {
      if j < |folder| + |Prefix| {
        assert x[j] == Prefix[j - |folder|];
      } else {
        assert x[j] == d[j - |folder| - |Prefix|];
      }
    }
    SuffixFirst(x, |folder|);
    assert path[|folder| + |Prefix|..|x|] == d;
  }

  /**
   * The path of a commit file in a folder whose own path holds no
   * "commit_" leads the dialog to that commit's number.
   */
  lemma ViewedCommitFile(folder: string, n: int)
    requires forall i: nat :: !OccursAt(folder, Prefix, i)
    ensures ViewedNumberText(folder + CommitFileName(n)) == Some(IntToString(n))
    ensures Atoi(ViewedNumberText(folder + CommitFileName(n)).value) == n
  {
    var d := IntToString(n);
    assert folder + CommitFileName(n) == folder + Prefix + d + Suffix;
    ViewedText(folder, d);
    IntRoundTrip(n);
  }

  // ---------------------------------------------------------------------
  // Replay of the folder (InitializeCommitTree, src/PluginDefinition.cpp:715-753)
  // ---------------------------------------------------------------------

  /** The entry a name contributes when it is taken: its number, the name and the contents of its side files. */
  function EntryOf(f: string, diffOf: int -> string, msgOf: int -> string): seq<Entry> {
    match AcceptedNumber(f)
    case None => []
    case Some(n) => [Entry(n, CommitInfo(f, diffOf(n), msgOf(n)))]
  }

  /** The numbers of the taken names, in listing order. */
  function Accepted(files: seq<string>): seq<int> {
    if files == [] then []
    else Accepted(files[..|files| - 1]) + (if AcceptedNumber(files[|files| - 1]).Some? then [AcceptedNumber(files[|files| - 1]).value] else [])
  }

  /** The entries of the taken names, in listing order. */
  function Replayed(files: seq<string>, diffOf: int -> string, msgOf: int -> string): seq<Entry> {
    if files == [] then []
    else Replayed(files[..|files| - 1], diffOf, msgOf) + EntryOf(files[|files| - 1], diffOf, msgOf)
  }

  /** One round of the replay loop: a taken name is inserted under its number, any other skipped. */
  function ReplayStep(t: Tree, f: string, diffOf: int -> string, msgOf: int -> string): (r: Tree)
    requires PosHeights(t)
    ensures PosHeights(r)
  {
    match AcceptedNumber(f)
    case None => t
    case Some(n) => Insert(t, n, CommitInfo(f, diffOf(n), msgOf(n)))
  }

  /** The tree after inserting the taken names one by one, in listing order. */
  function ReplayTree(t0: Tree, files: seq<string>, diffOf: int -> string, msgOf: int -> string): (r: Tree)
    requires PosHeights(t0)
    ensures PosHeights(r)
  {
    if files == [] then t0
    else ReplayStep(ReplayTree(t0, files[..|files| - 1], diffOf, msgOf), files[|files| - 1], diffOf, msgOf)
  }

  /** The greatest of the numbers and 0, as `maxCommit` ends up. */
  function MaxOr0(s: seq<int>): int {
    if s == [] then 0 else Max(MaxOr0(s[..|s| - 1]), s[|s| - 1])
  }

  /** The counter value after a replay. */
  function ReplayCounter(files: seq<string>): int {
    MaxOr0(Accepted(files)) + 1
  }

  /** `MaxOr0` is the least bound of the numbers that is at least 0. */
  lemma {:induction false} MaxOr0Bounds(s: seq<int>)
    ensures MaxOr0(s) >= 0 && forall x :: x in s ==> x <= MaxOr0(s)
    ensures MaxOr0(s) == 0 || MaxOr0(s) in s
  {
    if s != [] {
      MaxOr0Bounds(s[..|s| - 1]);
      assert s == s[..|s| - 1] + [s[|s| - 1]];
    }
  }

  /**
   * After a replay the counter lies above every number read, and it is 1
   * or one more than a number read.
   */
  lemma ReplayCounterBounds(files: seq<string>)
    ensures ReplayCounter(files) >= 1
    ensures forall n :: n in Accepted(files) ==> n < ReplayCounter(files)
    ensures ReplayCounter(files) == 1 || ReplayCounter(files) - 1 in Accepted(files)
  {
    var s := Accepted(files);
    MaxOr0Bounds(s);
  }

  /**
   * Replaying into a balanced ordered tree keeps it balanced and ordered,
   * and adds exactly the entries of the taken names.
   */
  lemma {:induction false} ReplayKeepsInvariant(t0: Tree, files: seq<string>, diffOf: int -> string, msgOf: int -> string)
    requires Avl(t0) && Sorted(Entries(t0))
    ensures var t := ReplayTree(t0, files, diffOf, msgOf);
            Avl(t) && Sorted(Entries(t)) &&
            multiset(Entries(t)) == multiset(Entries(t0)) + multiset(Replayed(files, diffOf, msgOf))
  {
    if files != [] {
      var f := files[|files| - 1];
      var prefix := files[..|files| - 1];
      ReplayKeepsInvariant(t0, prefix, diffOf, msgOf);
      var t := ReplayTree(t0, prefix, diffOf, msgOf);
      var es := Replayed(prefix, diffOf, msgOf);
      ReplayStepKeeps(t0, t, es, f, diffOf, msgOf);
      assert ReplayTree(t0, files, diffOf, msgOf) == ReplayStep(t, f, diffOf, msgOf);
      assert Replayed(files, diffOf, msgOf) == es + EntryOf(f, diffOf, msgOf);
    }
  }

  /**
   * One round of the replay keeps the tree balanced and ordered and adds
   * the name's entry to those it holds.
   */
  lemma ReplayStepKeeps(t0: Tree, t: Tree, es: seq<Entry>, f: string, diffOf: int -> string, msgOf: int -> string)
    requires Avl(t) && Sorted(Entries(t)) && multiset(Entries(t)) == multiset(Entries(t0)) + multiset(es)
    ensures var r := ReplayStep(t, f, diffOf, msgOf);
            Avl(r) && Sorted(Entries(r)) &&
            multiset(Entries(r)) == multiset(Entries(t0)) + multiset(es + EntryOf(f, diffOf, msgOf))
  {
    var e := EntryOf(f, diffOf, msgOf);
    match AcceptedNumber(f)
    case None =>
      assert es + e == es;
    case Some(n) =>
      var info := CommitInfo(f, diffOf(n), msgOf(n));
      assert e == [Entry(n, info)];
      InsertKeepsInvariant(t, n, info);
      assert multiset(es + e) == multiset(es) + multiset{Entry(n, info)};
  }

  // ---------------------------------------------------------------------
  // Rollback (src/PluginDefinition.cpp:423-447)
  // ---------------------------------------------------------------------

  /** A name the rollback deletes: the name of a commit numbered strictly between `lo` and `hi`. */
  predicate DeletedName(f: string, lo: int, hi: int) {
    AcceptedNumber(f).Some? && lo < AcceptedNumber(f).value < hi && f == CommitFileName(AcceptedNumber(f).value)
  }

  /** The listing with the deleted names gone, in the same order. */
  function Surviving(listing: seq<string>, lo: int, hi: int): seq<string> {
    if listing == [] then []
    else
      Surviving(listing[..|listing| - 1], lo, hi) +
      (if DeletedName(listing[|listing| - 1], lo, hi) then [] else [listing[|listing| - 1]])
  }

  /** The listing once the file `name` is removed from the folder. */
  function RemoveName(listing: seq<string>, name: string): seq<string> {
    if listing == [] then []
    else
      RemoveName(listing[..|listing| - 1], name) +
      (if listing[|listing| - 1] == name then [] else [listing[|listing| - 1]])
  }

  /** A name survives exactly when it was listed and is not one the rollback deletes. */
  lemma {:induction false} SurvivingMembers(listing: seq<string>, lo: int, hi: int)
    ensures forall f :: f in Surviving(listing, lo, hi) <==> f in listing && !DeletedName(f, lo, hi)
  {
    if listing != [] {
      SurvivingMembers(listing[..|listing| - 1], lo, hi);
      assert listing == listing[..|listing| - 1] + [listing[|listing| - 1]];
    }
  }

  /** The name of commit `n` is deleted exactly when `n` lies strictly between the bounds. */
  lemma DeletedCommitFile(n: int, lo: int, hi: int)
    ensures DeletedName(CommitFileName(n), lo, hi) <==> lo < n < hi
  {
    CommitFileNameAccepted(n);
  }

  /** Widening the deleted range by one adds exactly the name of commit `i`. */
  lemma DeletedStep(f: string, lo: int, i: int)
    requires lo < i
    ensures DeletedName(f, lo, i + 1) <==> DeletedName(f, lo, i) || f == CommitFileName(i)
  {
    DeletedCommitFile(i, lo, i + 1);
  }

  /** Deleting the name of commit `i` widens the deleted range by one. */
  lemma {:induction false} RemoveNext(listing: seq<string>, lo: int, i: int)
    requires lo < i
    ensures RemoveName(Surviving(listing, lo, i), CommitFileName(i)) == Surviving(listing, lo, i + 1)
  {
    if listing != [] {
      var prefix, f := listing[..|listing| - 1], listing[|listing| - 1];
      var a := Surviving(prefix, lo, i);
      RemoveNext(prefix, lo, i);
      DeletedStep(f, lo, i);
      var b := Surviving(prefix, lo, i + 1);
      if !DeletedName(f, lo, i) {
        assert Surviving(listing, lo, i) == a + [f];
        assert (a + [f])[..|a|] == a;
        assert RemoveName(a + [f], CommitFileName(i)) == b + (if f == CommitFileName(i) then [] else [f]);
        assert Surviving(listing, lo, i + 1) == b + (if f == CommitFileName(i) then [] else [f]);
      } else {
        assert Surviving(listing, lo, i) == a;
        assert Surviving(listing, lo, i + 1) == b;
      }
    }
  }

  /** With no number strictly between the bounds nothing is deleted. */
  lemma {:induction false} SurvivingAll(listing: seq<string>, lo: int, hi: int)
    requires hi <= lo + 1
    ensures Surviving(listing, lo, hi) == listing
  {
    if listing != [] {
      SurvivingAll(listing[..|listing| - 1], lo, hi);
      assert listing == listing[..|listing| - 1] + [listing[|listing| - 1]];
    }
  }

  /**
   * The deletion loop of the rollback: for every number after the viewed
   * commit and before the counter, the commit's files are removed (the
   * `.diff` and `.msg` files are never listed and only their `.txt` name
   * matters to a later replay).
   */
  method DeleteNewerCommits(listing: seq<string>, rollbackCommit: int, counter: int) returns (listing': seq<string>)
    ensures listing' == Surviving(listing, rollbackCommit, counter)
  {
    listing' := listing;
    var i := rollbackCommit + 1;
    if counter <= i {
      SurvivingAll(listing, rollbackCommit, counter);
      return;
    }
    SurvivingAll(listing, rollbackCommit, i);
    while i < counter
      invariant rollbackCommit < i <= counter
      invariant listing' == Surviving(listing, rollbackCommit, i)
    {
      listing' := RemoveName(listing', CommitFileName(i));
      RemoveNext(listing, rollbackCommit, i);
      i := i + 1;
    }
  }

  /**
   * The rollback as the code does it: the newer commits are deleted, the
   * counter is set to one after the viewed commit, and the folder is
   * replayed into the tree that is still loaded, which then sets the
   * counter again.
   */
  method RollbackAsWritten(rollbackCommit: int, counter: int, listing: seq<string>, tree: Tree,
                           diffOf: int -> string, msgOf: int -> string)
    returns (listing': seq<string>, tree': Tree, counter': int)
    requires PosHeights(tree)
    ensures listing' == Surviving(listing, rollbackCommit, counter)
    ensures tree' == ReplayTree(tree, listing', diffOf, msgOf)
    ensures counter' == ReplayCounter(listing')
  {
    listing' := DeleteNewerCommits(listing, rollbackCommit, counter);
    counter' := rollbackCommit + 1;
    tree', counter' := ReplayTree(tree, listing', diffOf, msgOf), ReplayCounter(listing');
  }

  /**
   * A folder as the plugin writes it: every taken name is the canonical
   * name of its number, and that number is below the counter.
   */
  predicate Canonical(listing: seq<string>, counter: int) {
    forall f :: f in listing && AcceptedNumber(f).Some? ==>
      f == CommitFileName(AcceptedNumber(f).value) && AcceptedNumber(f).value < counter
  }

  /** Every number read comes from a name of the listing. */
  lemma {:induction false} AcceptedFrom(files: seq<string>)
    ensures forall n :: n in Accepted(files) ==> exists f :: f in files && AcceptedNumber(f) == Some(n)
    ensures forall f :: f in files && AcceptedNumber(f).Some? ==> AcceptedNumber(f).value in Accepted(files)
  {
    if files != [] {
      AcceptedFrom(files[..|files| - 1]);
      assert files == files[..|files| - 1] + [files[|files| - 1]];
    }
  }

  /** Every replayed entry carries a number read from the listing. */
  lemma {:induction false} ReplayedKeys(files: seq<string>, diffOf: int -> string, msgOf: int -> string)
    ensures forall e :: e in Replayed(files, diffOf, msgOf) ==> e.key in Accepted(files)
  {
    if files != [] {
      ReplayedKeys(files[..|files| - 1], diffOf, msgOf);
    }
  }

  /**
   * In a canonical folder that still holds the viewed commit, the counter
   * the replay leaves after a rollback is the one the code sets before it:
   * one after the viewed commit.
   */
  lemma RollbackCounter(listing: seq<string>, rollbackCommit: int, counter: int)
    requires Canonical(listing, counter) && rollbackCommit >= 0 && CommitFileName(rollbackCommit) in listing
    ensures ReplayCounter(Surviving(listing, rollbackCommit, counter)) == rollbackCommit + 1
  {
    var rest := Surviving(listing, rollbackCommit, counter);
    var nums := Accepted(rest);
    SurvivingMembers(listing, rollbackCommit, counter);
    AcceptedFrom(rest);
    DeletedCommitFile(rollbackCommit, rollbackCommit, counter);
    CommitFileNameAccepted(rollbackCommit);
    assert CommitFileName(rollbackCommit) in rest;
    assert rollbackCommit in nums;
    forall n | n in nums ensures n <= rollbackCommit {
      var f :| f in rest && AcceptedNumber(f) == Some(n);
      assert !DeletedName(f, rollbackCommit, counter);
    }
    MaxOr0Bounds(nums);
  }

  /**
   * The corrected rollback loads only what survives: exactly the entries
   * of the remaining names, and in a canonical folder no commit after the
   * viewed one.
   */
  lemma RollbackLoadsSurvivors(listing: seq<string>, rollbackCommit: int, counter: int,
                               diffOf: int -> string, msgOf: int -> string)
    ensures var rest := Surviving(listing, rollbackCommit, counter);
            multiset(Entries(ReplayTree(Nil, rest, diffOf, msgOf))) == multiset(Replayed(rest, diffOf, msgOf))
    ensures Canonical(listing, counter) ==>
              forall e :: e in Entries(ReplayTree(Nil, Surviving(listing, rollbackCommit, counter), diffOf, msgOf)) ==>
                e.key <= rollbackCommit
  {
    var rest := Surviving(listing, rollbackCommit, counter);
    var t := ReplayTree(Nil, rest, diffOf, msgOf);
    ReplayKeepsInvariant(Nil, rest, diffOf, msgOf);
    if Canonical(listing, counter) {
      SurvivingMembers(listing, rollbackCommit, counter);
      AcceptedFrom(rest);
      ReplayedKeys(rest, diffOf, msgOf);
      forall e | e in Entries(t) ensures e.key <= rollbackCommit {
        assert e in multiset(Entries(t));
        assert e in Replayed(rest, diffOf, msgOf);
        var f :| f in rest && AcceptedNumber(f) == Some(e.key);
        assert !DeletedName(f, rollbackCommit, counter);
      }
    }
  }

  /**
   * A folder with commits 1 to 3, rolled back to commit 1 as written:
   * commit 2 is gone from the folder but still in the tree.
   */
  lemma StaleCommitAfterRollback(diffOf: int -> string, msgOf: int -> string)
    ensures var listing := [CommitFileName(1), CommitFileName(2), CommitFileName(3)];
            var rest := Surviving(listing, 1, 4);
            var stale := Entry(2, CommitInfo(CommitFileName(2), diffOf(2), msgOf(2)));
            stale in Entries(ReplayTree(ReplayTree(Nil, listing, diffOf, msgOf), rest, diffOf, msgOf)) &&
            2 !in Accepted(rest)
  {
    var listing := [CommitFileName(1), CommitFileName(2), CommitFileName(3)];
    var rest := Surviving(listing, 1, 4);
    var stale := Entry(2, CommitInfo(CommitFileName(2), diffOf(2), msgOf(2)));
    ThreeCommitsReplayed(diffOf, msgOf);
    ReplayKeepsInvariant(Nil, listing, diffOf, msgOf);
    var tree := ReplayTree(Nil, listing, diffOf, msgOf);
    assert stale in multiset(Entries(tree));
    ReplayKeepsInvariant(tree, rest, diffOf, msgOf);
    assert stale in multiset(Entries(ReplayTree(tree, rest, diffOf, msgOf)));
    ThreeCommitsRolledBack();
  }

  /** Replaying the names of commits 1 to 3 yields the entry of commit 2. */
  lemma ThreeCommitsReplayed(diffOf: int -> string, msgOf: int -> string)
    ensures Entry(2, CommitInfo(CommitFileName(2), diffOf(2), msgOf(2))) in
              Replayed([CommitFileName(1), CommitFileName(2), CommitFileName(3)], diffOf, msgOf)
  {
    var listing := [CommitFileName(1), CommitFileName(2), CommitFileName(3)];
    CommitFileNameAccepted(2);
    assert listing[..2] == [CommitFileName(1), CommitFileName(2)] && listing[..2][..1] == [CommitFileName(1)];
    assert EntryOf(CommitFileName(2), diffOf, msgOf) == [Entry(2, CommitInfo(CommitFileName(2), diffOf(2), msgOf(2)))];
  }

  /** Rolling the names of commits 1 to 3 back to commit 1 leaves no name that reads as 2. */
  lemma ThreeCommitsRolledBack()
    ensures 2 !in Accepted(Surviving([CommitFileName(1), CommitFileName(2), CommitFileName(3)], 1, 4))
  {
    var listing := [CommitFileName(1), CommitFileName(2), CommitFileName(3)];
    var rest := Surviving(listing, 1, 4);
    CommitFileNameAccepted(1);
    CommitFileNameAccepted(3);
    SurvivingMembers(listing, 1, 4);
    DeletedCommitFile(2, 1, 4);
    AcceptedFrom(rest);
    forall f | f in rest ensures AcceptedNumber(f) != Some(2) {
      assert f in listing && f != CommitFileName(2);
    }
  }
}
