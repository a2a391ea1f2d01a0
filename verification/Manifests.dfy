/** Rendering the proxy's manifests: splitting a multi-document text, indenting embedded text, and service ports. */
module Manifests {
  import opened Text
  import opened GatewayApi

  // ----- white space -----

  /** Unicode white space, as strings.TrimSpace knows it. */
  predicate IsSpace(c: char) {
    || '\t' <= c <= '\r' || c == ' ' || c == '\U{85}' || c == '\U{A0}' || c == '\U{1680}'
    || '\U{2000}' <= c <= '\U{200A}' || c == '\U{2028}' || c == '\U{2029}' || c == '\U{202F}'
    || c == '\U{205F}' || c == '\U{3000}'
  }

  function TrimLeft(s: string): string {
    if s != "" && IsSpace(s[0]) then TrimLeft(s[1..]) else s
  }

  function TrimRight(s: string): string {
    if s != "" && IsSpace(s[|s| - 1]) then TrimRight(s[..|s| - 1]) else s
  }

  function TrimSpace(s: string): string { TrimRight(TrimLeft(s)) }

  /** A text without white space around it; such texts are the fixed points of TrimSpace. */
  predicate Trimmed(s: string) { s != "" ==> !IsSpace(s[0]) && !IsSpace(s[|s| - 1]) }

  lemma {:induction false} TrimRightTrims(s: string)
    requires s != "" ==> !IsSpace(s[0])
    ensures Trimmed(TrimRight(s))
  {
    if s != "" && IsSpace(s[|s| - 1]) { TrimRightTrims(s[..|s| - 1]); }
  }

  lemma {:induction false} TrimSpaceTrims(s: string)
    ensures Trimmed(TrimSpace(s))
  {
    if s != "" && IsSpace(s[0]) { TrimSpaceTrims(s[1..]); } else { TrimRightTrims(s); }
  }

  // ----- splitting -----

  /** The index of the first newline, or the length of the text. */
  function FirstNewline(s: string): (k: nat)
    ensures k <= |s| && (k < |s| ==> s[k] == '\n')
    ensures forall i :: 0 <= i < k ==> s[i] != '\n'
  {
    if s == "" || s[0] == '\n' then 0 else 1 + FirstNewline(s[1..])
  }

  /** The parts between separator lines; active is the part being read. A last line without newline never separates. */
  function Parts(s: string, active: string): seq<string>
    decreases |s|
  {
    var k := FirstNewline(s);
    if k == |s| then (if active + s == "" then [] else [active + s])
    else if HasPrefix(s[..k + 1], "---") then [active] + Parts(s[k + 1..], "")
    else Parts(s[k + 1..], active + s[..k + 1])
  }

  /** The trimmed parts that are not empty. */
  function Kept(parts: seq<string>): seq<string> {
    if parts == [] then []
    else
      var part := TrimSpace(parts[|parts| - 1]);
      Kept(parts[..|parts| - 1]) + if part == "" then [] else [part]
  }

  method SplitYAMLDocument(yamlText: string) returns (out: seq<string>)
    ensures out == Kept(Parts(yamlText, ""))
  {
    var parts: seq<string> := [];
    var active := "";
    var rest := yamlText;
    while true
      invariant Parts(yamlText, "") == parts + Parts(rest, active)
      decreases |rest|
    {
      var k := FirstNewline(rest);
      if k == |rest| {
        active := active + rest;
        break;
      }
      var line := rest[..k + 1];
      if HasPrefix(line, "---") {
        parts := parts + [active];
        active := "";
      } else {
        active := active + line;
      }
      rest := rest[k + 1..];
    }
    if |active| > 0 {
      parts := parts + [active];
    }
    assert Parts(yamlText, "") == parts;
    out := [];
    for i := 0 to |parts|
      invariant out == Kept(parts[..i])
    {
      assert parts[..i + 1][..i] == parts[..i];
      var part := TrimSpace(parts[i]);
      if |part| > 0 {
        out := out + [part];
      }
    }
    assert parts[..|parts|] == parts;
  }

  /** Whatever the text, the documents that come out are trimmed and not empty. */
  lemma {:induction false} KeptAreTrimmed(parts: seq<string>)
    ensures forall d :: d in Kept(parts) ==> d != "" && Trimmed(d)
    ensures forall d :: d in Kept(parts) ==> d[0] !in " \t\r\n" && d[|d| - 1] !in " \t\r\n"
  {
    if parts != [] {
      KeptAreTrimmed(parts[..|parts| - 1]);
      TrimSpaceTrims(parts[|parts| - 1]);
    }
  }

  /** A line that starts with "---" begins at position i. */
  predicate SeparatorAt(s: string, i: nat) {
    i <= |s| && (i == 0 || s[i - 1] == '\n') && "---" <= s[i..]
  }

  ghost predicate NoSeparator(s: string) { forall i: nat :: !SeparatorAt(s, i) }

  // ----- every separator line separates -----

  /** No line that is complete, with its newline, starts with "---". */
  ghost predicate Separated(s: string) { forall i: nat :: SeparatorAt(s, i) ==> '\n' !in s[i..] }

  /** No part has a complete line that starts with "---", whatever follows the dashes; only a last line without newline can
      start so. */
  lemma {:induction false} PartsAreSeparated(s: string, active: string)
    requires NoSeparator(active) && (active == "" || active[|active| - 1] == '\n')
    ensures forall part :: part in Parts(s, active) ==> Separated(part)
    decreases |s|
  {
    var k := FirstNewline(s);
    if k == |s| {
      EndSeparated(active, s);
    } else if HasPrefix(s[..k + 1], "---") {
      PartsAreSeparated(s[k + 1..], "");
    } else {
      NoSeparatorGrows(active, s[..k + 1]);
      PartsAreSeparated(s[k + 1..], active + s[..k + 1]);
    }
  }

  /** A separator behind complete lines is in them, or in the text that follows. */
  lemma SeparatorBehind(a: string, b: string, i: nat)
    requires (a == "" || a[|a| - 1] == '\n') && SeparatorAt(a + b, i)
    ensures if i < |a| then SeparatorAt(a, i) else SeparatorAt(b, i - |a|) && (a + b)[i..] == b[i - |a|..]
  {
    var s := a + b;
    var top := s[i..][..3];
    assert top == "---" && top[0] == s[i] && top[1] == s[i + 1] && top[2] == s[i + 2];
    if i < |a| {
      assert i + 3 <= |a|;
      assert a[i..][..3] == top;
    }
  }

  lemma EndSeparated(active: string, s: string)
    requires NoSeparator(active) && (active == "" || active[|active| - 1] == '\n') && '\n' !in s
    ensures Separated(active + s)
  {
    forall i: nat | SeparatorAt(active + s, i) ensures '\n' !in (active + s)[i..] {
      SeparatorBehind(active, s, i);
    }
  }

  lemma NoSeparatorGrows(active: string, line: string)
    requires NoSeparator(active) && (active == "" || active[|active| - 1] == '\n')
    requires line != "" && !HasPrefix(line, "---") && forall i :: 0 <= i < |line| - 1 ==> line[i] != '\n'
    ensures NoSeparator(active + line)
  {
    assert line[0..] == line;
    forall i: nat ensures !SeparatorAt(active + line, i) {
      if SeparatorAt(active + line, i) { SeparatorBehind(active, line, i); }
    }
  }

  // ----- splitting undoes joining -----

  /** A first line that reads as a separator is one. */
  lemma FirstLineSeparates(d: string)
    ensures "---" <= d[..FirstNewline(d)] + "\n" ==> SeparatorAt(d, 0)
  {
    var line := d[..FirstNewline(d)] + "\n";
    if "---" <= line {
      assert line[|line| - 1] == '\n' && line[..3] == "---";
      assert |line| > 3;
      assert d[0..][..3] == line[..3];
    }
  }

  lemma SeparatorShifts(d: string, from: nat, i: nat)
    requires 0 < from <= |d| && d[from - 1] == '\n'
    ensures SeparatorAt(d[from..], i) ==> SeparatorAt(d, from + i)
  {
    if i <= |d[from..]| { assert d[from..][i..] == d[from + i..]; }
  }

  lemma TailNoSeparator(d: string, from: nat)
    requires 0 < from <= |d| && d[from - 1] == '\n' && NoSeparator(d)
    ensures NoSeparator(d[from..])
  {
    forall i: nat ensures !SeparatorAt(d[from..], i) {
      SeparatorShifts(d, from, i);
    }
  }

  lemma FirstNewlineIs(s: string, k: nat)
    requires k < |s| && s[k] == '\n' && forall i :: 0 <= i < k ==> s[i] != '\n'
    ensures FirstNewline(s) == k
  {
  }

  lemma Reassemble(active: string, d: string, k: nat)
    requires k < |d| && d[k] == '\n'
    ensures (active + (d[..k] + "\n")) + d[k + 1..] + "\n" == active + d + "\n"
  {
    assert d == (d[..k] + "\n") + d[k + 1..];
  }

  /** A line that is no separator joins the active part. */
  lemma ReadLine(line: string, tail: string, active: string)
    requires line != "" && line[|line| - 1] == '\n' && !HasPrefix(line, "---")
    requires forall i :: 0 <= i < |line| - 1 ==> line[i] != '\n'
    ensures Parts(line + tail, active) == Parts(tail, active + line)
  {
    var s, k := line + tail, |line| - 1;
    assert s[k] == line[k] && forall i :: 0 <= i < k ==> s[i] == line[i];
    FirstNewlineIs(s, k);
    assert s[..k + 1] == line && s[k + 1..] == tail;
  }

  /** A document without separator lines is read into the active part, up to and including the newline after it. */
  lemma {:induction false} ReadDocument(d: string, rest: string, active: string)
    requires NoSeparator(d)
    ensures Parts(d + "\n" + rest, active) == Parts(rest, active + d + "\n")
    decreases |d|
  {
    var k := FirstNewline(d);
    var line := d[..k] + "\n";
    FirstLineSeparates(d);
    if k == |d| {
      assert d[..k] == d;
      ReadLine(line, rest, active);
      assert active + line == active + d + "\n";
    } else {
      var d' := d[k + 1..];
      assert d + "\n" + rest == line + (d' + "\n" + rest);
      ReadLine(line, d' + "\n" + rest, active);
      TailNoSeparator(d, k + 1);
      ReadDocument(d', rest, active + line);
      Reassemble(active, d, k);
    }
  }

  /** The last document ends with the text. */
  lemma {:induction false} ReadLastDocument(d: string, active: string)
    requires NoSeparator(d) && active + d != ""
    ensures Parts(d, active) == [active + d]
    decreases |d|
  {
    var k := FirstNewline(d);
    if k == |d| {
      ReadEnd(d, active);
    } else {
      var line, d' := d[..k] + "\n", d[k + 1..];
      assert d == line + d';
      FirstLineSeparates(d);
      ReadLine(line, d', active);
      TailNoSeparator(d, k + 1);
      ConcatAssociative(active, line, d');
      ReadLastDocument(d', active + line);
    }
  }

  lemma ReadEnd(s: string, active: string)
    requires FirstNewline(s) == |s| && active + s != ""
    ensures Parts(s, active) == [active + s]
  {
  }

  lemma {:induction false} TrimDropsNewline(d: string)
    ensures TrimSpace(d + "\n") == TrimSpace(d)
  {
    if d == "" {
      assert TrimLeft("\n") == TrimLeft("\n"[1..]) == "";
    } else if IsSpace(d[0]) {
      assert (d + "\n")[1..] == d[1..] + "\n";
      TrimDropsNewline(d[1..]);
    } else {
      assert (d + "\n")[..|d|] == d;
      assert TrimRight(d + "\n") == TrimRight(d);
    }
  }

  lemma TrimmedStays(d: string)
    requires Trimmed(d)
    ensures TrimSpace(d) == d
  {
  }

  /** A separator line closes the active part. */
  lemma ReadSeparator(tail: string, active: string)
    ensures Parts("---\n" + tail, active) == [active] + Parts(tail, "")
  {
    var s := "---\n" + tail;
    assert s[0] == '-' && s[1] == '-' && s[2] == '-' && s[3] == '\n';
    FirstNewlineIs(s, 3);
    assert s[..4] == "---\n" && s[4..] == tail;
    assert HasPrefix("---\n", "---");
  }

  /** What the parts of joined documents are: every document but the last keeps the newline before its separator, and a
      last document without any text leaves no part. */
  function PartsOf(docs: seq<string>): seq<string> {
    if docs == [] then []
    else if |docs| == 1 then (if docs[0] == "" then [] else [docs[0]])
    else [docs[0] + "\n"] + PartsOf(docs[1..])
  }

  lemma {:induction false} PartsOfJoin(docs: seq<string>)
    requires forall d :: d in docs ==> NoSeparator(d)
    ensures Parts(Join(docs, "\n---\n"), "") == PartsOf(docs)
  {
    if |docs| == 1 {
      assert docs[0] in docs;
      if docs[0] != "" { ReadLastDocument(docs[0], ""); }
      assert "" + docs[0] == docs[0];
    } else if |docs| > 1 {
      assert docs[0] in docs;
      forall x | x in docs[1..] ensures x in docs { }
      PartsOfJoin(docs[1..]);
      FirstOfJoin(docs[0], Join(docs[1..], "\n---\n"));
    }
  }

  lemma FirstOfJoin(d: string, tail: string)
    requires NoSeparator(d)
    ensures Parts(d + "\n---\n" + tail, "") == [d + "\n"] + Parts(tail, "")
  {
    assert d + "\n---\n" + tail == d + "\n" + ("---\n" + tail);
    ReadDocument(d, "---\n" + tail, "");
    ReadSeparator(tail, "" + d + "\n");
    assert "" + d + "\n" == d + "\n";
  }

  lemma {:induction false} KeptAppends(a: seq<string>, b: seq<string>)
    ensures Kept(a + b) == Kept(a) + Kept(b)
  {
    if b == [] {
      assert a + b == a;
    } else {
      var front, last := b[..|b| - 1], b[|b| - 1];
      KeptAppends(a, front);
      ConcatAssociative(a, front, [last]);
      assert b == front + [last];
      KeptEndsIn(a + front, last);
      KeptEndsIn(front, last);
      ConcatAssociative(Kept(a), Kept(front), if TrimSpace(last) == "" then [] else [TrimSpace(last)]);
    }
  }

  lemma KeptEndsIn(front: seq<string>, last: string)
    ensures Kept(front + [last]) == Kept(front) + if TrimSpace(last) == "" then [] else [TrimSpace(last)]
  {
    var s := front + [last];
    assert s[..|s| - 1] == front && s[|s| - 1] == last;
  }

  lemma KeptOne(part: string)
    ensures Kept([part]) == if TrimSpace(part) == "" then [] else [TrimSpace(part)]
  {
    assert [part][..0] == [];
  }

  lemma {:induction false} KeptPartsOf(docs: seq<string>)
    ensures Kept(PartsOf(docs)) == Kept(docs)
  {
    if |docs| == 1 {
      assert docs == [docs[0]];
      KeptOne(docs[0]);
    } else if |docs| > 1 {
      KeptPartsOf(docs[1..]);
      TrimDropsNewline(docs[0]);
      KeptFirst(docs[0] + "\n", PartsOf(docs[1..]));
      KeptFirst(docs[0], docs[1..]);
      assert docs == [docs[0]] + docs[1..];
    }
  }

  lemma KeptFirst(part: string, rest: seq<string>)
    ensures Kept([part] + rest) == (if TrimSpace(part) == "" then [] else [TrimSpace(part)]) + Kept(rest)
  {
    KeptAppends([part], rest);
    KeptOne(part);
  }

  /** Splitting undoes joining: documents without separator lines come back in order, trimmed, less the blank ones. */
  lemma SplitUndoesJoin(docs: seq<string>)
    requires forall d :: d in docs ==> NoSeparator(d)
    ensures Kept(Parts(Join(docs, "\n---\n"), "")) == Kept(docs)
  {
    PartsOfJoin(docs);
    KeptPartsOf(docs);
  }

  /** Trimmed documents that are not empty come back as they are. */
  lemma {:induction false} TrimmedComeBack(docs: seq<string>)
    requires forall d :: d in docs ==> d != "" && Trimmed(d)
    ensures Kept(docs) == docs
  {
    if docs != [] {
      var front, last := docs[..|docs| - 1], docs[|docs| - 1];
      assert docs == front + [last];
      assert forall d :: d in front ==> d in docs;
      assert last in docs;
      TrimmedComeBack(front);
      TrimmedStays(last);
    }
  }

  /** A document that begins and ends with a printable ASCII character. */
  predicate Printable(d: string) { d != "" && '!' <= d[0] <= '~' && '!' <= d[|d| - 1] <= '~' }

  /** So documents that begin and end with printable characters, and have no separator lines, come back as they are. */
  lemma PrintableComeBack(docs: seq<string>)
    requires forall d :: d in docs ==> Printable(d) && NoSeparator(d)
    ensures Kept(Parts(Join(docs, "\n---\n"), "")) == docs
  {
    SplitUndoesJoin(docs);
    TrimmedComeBack(docs);
  }

  // ----- indentation -----

  function Spaces(n: nat): string { seq(n, _ => ' ') }

  /** Every line that is not empty moves right by n spaces. */
  function Indented(n: nat, text: string): string {
    var lines := Split(text, '\n');
    Join(seq(|lines|, i requires 0 <= i < |lines| => if lines[i] == "" then "" else Spaces(n) + lines[i]), "\n")
  }

  method Indent(spaces: nat, text: string) returns (r: string)
    ensures r == Indented(spaces, text)
  {
    var pieces := Split(text, '\n');
    var lines := new string[|pieces|](i requires 0 <= i < |pieces| => pieces[i]);
    var indent := Spaces(spaces);
    for i := 0 to lines.Length
      invariant forall k :: 0 <= k < i ==> lines[k] == if pieces[k] == "" then "" else indent + pieces[k]
      invariant forall k :: i <= k < lines.Length ==> lines[k] == pieces[k]
    {
      if lines[i] != "" {
        lines[i] := indent + lines[i];
      }
    }
    assert lines[..] ==
      seq(|pieces|, i requires 0 <= i < |pieces| => if pieces[i] == "" then "" else indent + pieces[i]);
    r := Join(lines[..], "\n");
  }

  lemma {:induction false} PiecesAreLines(s: string)
    ensures forall l :: l in Split(s, '\n') ==> '\n' !in l
  {
    if s != "" { PiecesAreLines(s[1..]); }
  }

  lemma SeparatorInStack(a: string, b: string, i: nat)
    requires SeparatorAt(a + "\n" + b, i)
    ensures SeparatorAt(a, i) || (i > |a| && SeparatorAt(b, i - |a| - 1))
  {
    var s := a + "\n" + b;
    var top := s[i..][..3];
    assert top == "---" && top[0] == s[i] && top[1] == s[i + 1] && top[2] == s[i + 2];
    if i <= |a| {
      assert s[|a|] == '\n' && i + 3 <= |a|;
      assert a[i..][..3] == top;
    } else {
      assert b[i - |a| - 1..] == s[i..];
    }
  }

  /** Putting separator-free texts under each other does not create a separator line. */
  lemma NoSeparatorStacks(a: string, b: string)
    requires NoSeparator(a) && NoSeparator(b)
    ensures NoSeparator(a + "\n" + b)
  {
    forall i: nat ensures !SeparatorAt(a + "\n" + b, i) {
      if SeparatorAt(a + "\n" + b, i) { SeparatorInStack(a, b, i); }
    }
  }

  lemma LineNoSeparator(l: string)
    requires '\n' !in l && !("---" <= l)
    ensures NoSeparator(l)
  {
    forall i: nat ensures !SeparatorAt(l, i) {
      if 0 < i <= |l| { assert l[i - 1] in l; }
      if i == 0 { assert l[0..] == l; }
    }
  }

  lemma {:induction false} LinesNoSeparator(lines: seq<string>)
    requires forall l :: l in lines ==> '\n' !in l && !("---" <= l)
    ensures NoSeparator(Join(lines, "\n"))
  {
    if lines != [] { LineNoSeparator(lines[0]); }
    if |lines| > 1 {
      LinesNoSeparator(lines[1..]);
      NoSeparatorStacks(lines[0], Join(lines[1..], "\n"));
    }
  }

  /** Every line that is not empty moves left by n characters. */
  function Dedented(n: nat, text: string): string {
    var lines := Split(text, '\n');
    Join(seq(|lines|, i requires 0 <= i < |lines| => if |lines[i]| < n then lines[i] else lines[i][n..]), "\n")
  }

  /** Indentation loses nothing: moving the lines back gives the text back. */
  lemma IndentIsReversible(n: nat, text: string)
    ensures Dedented(n, Indented(n, text)) == text
  {
    PiecesAreLines(text);
    var lines := Split(text, '\n');
    var moved := seq(|lines|, i requires 0 <= i < |lines| => if lines[i] == "" then "" else Spaces(n) + lines[i]);
    forall l | l in moved ensures '\n' !in l {
      var i :| 0 <= i < |lines| && moved[i] == l;
      assert lines[i] in lines;
    }
    JoinSplit(moved, '\n');
    var back := seq(|moved|, i requires 0 <= i < |moved| => if |moved[i]| < n then moved[i] else moved[i][n..]);
    forall i | 0 <= i < |lines| ensures back[i] == lines[i] {
      assert lines[i] != "" ==> moved[i][n..] == lines[i];
    }
    assert back == lines;
    SplitJoin(text, '\n');
  }

  /** A line of n blanks and the text. */
  predicate MovedRight(n: nat, line: string, moved: string) {
    |moved| == n + |line| && moved[n..] == line && forall k :: 0 <= k < n ==> moved[k] == ' '
  }

  /** Line by line: empty lines stay empty, all others get n blanks in front. */
  lemma IndentedLineByLine(n: nat, text: string)
    ensures var lines, moved := Split(text, '\n'), Split(Indented(n, text), '\n');
      && |moved| == |lines|
      && forall i :: 0 <= i < |lines| ==> if lines[i] == "" then moved[i] == "" else MovedRight(n, lines[i], moved[i])
  {
    PiecesAreLines(text);
    var lines := Split(text, '\n');
    var moved := seq(|lines|, i requires 0 <= i < |lines| => if lines[i] == "" then "" else Spaces(n) + lines[i]);
    forall l | l in moved ensures '\n' !in l {
      var i :| 0 <= i < |lines| && moved[i] == l;
      assert lines[i] in lines;
    }
    JoinSplit(moved, '\n');
  }

  /** Indented text never contains a separator line, whatever the text. */
  lemma IndentedNoSeparator(n: nat, text: string)
    requires n > 0
    ensures NoSeparator(Indented(n, text))
  {
    PiecesAreLines(text);
    var lines := Split(text, '\n');
    var moved := seq(|lines|, i requires 0 <= i < |lines| => if lines[i] == "" then "" else Spaces(n) + lines[i]);
    forall l | l in moved ensures '\n' !in l && !("---" <= l) {
      var i :| 0 <= i < |lines| && moved[i] == l;
      assert lines[i] in lines;
      if l != "" { assert l[0] == Spaces(n)[0] == ' '; }
    }
    LinesNoSeparator(moved);
  }

  /** So a manifest may embed any text: a document that ends in indented text splits off in one piece. */
  lemma EmbeddedTextIsSafe(before: seq<string>, header: string, n: nat, text: string, after: seq<string>)
    requires n > 0 && NoSeparator(header)
    requires forall d :: d in before + after ==> NoSeparator(d)
    ensures var d := header + "\n" + Indented(n, text);
      Kept(Parts(Join(before + [d] + after, "\n---\n"), "")) ==
      Kept(before) + (if TrimSpace(d) == "" then [] else [TrimSpace(d)]) + Kept(after)
  {
    IndentedNoSeparator(n, text);
    NoSeparatorStacks(header, Indented(n, text));
    var d := header + "\n" + Indented(n, text);
    assert forall x :: x in before + [d] + after <==> x in before + after || x == d;
    SplitUndoesJoin(before + [d] + after);
    KeptAppends(before + [d], after);
    KeptAppends(before, [d]);
    KeptOne(d);
  }

  // ----- service ports -----

  datatype ServicePortSpec = ServicePortSpec(name: string, port: int32, appProtocol: string)

  /** A listener name made fit for a service port: no dots, at most 63 characters. */
  function SanitizeListenerName(s: string): (r: string)
    ensures |r| <= 63 && '.' !in r
  {
    var t := ReplaceChar(s, '.', '-');
    if |t| <= 63 then t else t[..63]
  }

  function ServicePortFor(l: Listener, i: nat): ServicePortSpec {
    var name := SanitizeListenerName(l.name);
    ServicePortSpec(if name == "" then ToLower(ProtocolName(l.protocol)) + "-" + Decimal(i) else name,
                    l.port, ToLower(ProtocolName(l.protocol)))
  }

  predicate ListensOn(ls: seq<Listener>, port: int32) { exists l :: l in ls && l.port == port }

  /** One service port for the first listener on every port, in order. */
  function ServicePorts(ls: seq<Listener>): seq<ServicePortSpec> {
    if ls == [] then []
    else
      var front, l := ls[..|ls| - 1], ls[|ls| - 1];
      ServicePorts(front) +
      if ListensOn(front, l.port) then [] else [ServicePortFor(l, |front|)]
  }

  lemma PortsOneMore(ls: seq<Listener>, i: nat)
    requires i < |ls|
    ensures ServicePorts(ls[..i + 1]) ==
              ServicePorts(ls[..i]) + if ListensOn(ls[..i], ls[i].port) then [] else [ServicePortFor(ls[i], i)]
    ensures forall p: int32 :: ListensOn(ls[..i + 1], p) <==> ListensOn(ls[..i], p) || p == ls[i].port
  {
    assert ls[..i + 1] == ls[..i] + [ls[i]] && ls[..i + 1][..i] == ls[..i];
    forall p: int32 ensures ListensOn(ls[..i + 1], p) <==> ListensOn(ls[..i], p) || p == ls[i].port {
      if l :| l in ls[..i] && l.port == p { assert l in ls[..i + 1]; }
      assert ls[i] in ls[..i + 1];
    }
  }

  method ExtractServicePorts(ls: seq<Listener>) returns (svcPorts: seq<ServicePortSpec>)
    ensures svcPorts == ServicePorts(ls)
  {
    svcPorts := [];
    var portNums: set<int32> := {};
    for i := 0 to |ls|
      invariant svcPorts == ServicePorts(ls[..i])
      invariant forall p: int32 :: p in portNums <==> ListensOn(ls[..i], p)
    {
      var l := ls[i];
      PortsOneMore(ls, i);
      if l.port in portNums {
        continue;
      }
      portNums := portNums + {l.port};
      svcPorts := svcPorts + [ServicePortFor(l, i)];
    }
    assert ls[..|ls|] == ls;
  }

  predicate Exposes(sps: seq<ServicePortSpec>, port: int32) { exists s :: s in sps && s.port == port }

  /** The service exposes exactly the listeners' ports, each once. */
  lemma {:induction false} ServicePortsExactly(ls: seq<Listener>)
    ensures forall p: int32 :: Exposes(ServicePorts(ls), p) <==> ListensOn(ls, p)
    ensures forall i, j :: 0 <= i < j < |ServicePorts(ls)| ==> ServicePorts(ls)[i].port != ServicePorts(ls)[j].port
  {
    if ls != [] {
      var front, last := ls[..|ls| - 1], ls[|ls| - 1];
      ServicePortsExactly(front);
      assert ls == front + [last];
      var before, after := ServicePorts(front), ServicePorts(ls);
      forall i | 0 <= i < |before| ensures Exposes(before, before[i].port) {
        assert before[i] in before;
      }
      forall p: int32 ensures Exposes(after, p) <==> ListensOn(ls, p) {
        if ListensOn(ls, p) && !ListensOn(front, p) { assert ServicePortFor(last, |front|) in after; }
        if Exposes(before, p) {
          var s :| s in before && s.port == p;
          assert s in after;
        }
      }
    }
  }

  /** Listener k is the first on its port. */
  predicate FirstOnPort(ls: seq<Listener>, k: nat) {
    k < |ls| && forall j :: 0 <= j < k ==> ls[j].port != ls[k].port
  }

  /** The port carries the protocol of listener k in lower case, and its name, cut to 63 characters with dashes for dots; a
      listener without a name is called after its protocol and its place. */
  predicate Describes(s: ServicePortSpec, l: Listener, k: nat) {
    && s.port == l.port
    && (match l.protocol
        case HTTP => s.appProtocol == "http"
        case HTTPS => s.appProtocol == "https"
        case TLS => s.appProtocol == "tls"
        case TCP => s.appProtocol == "tcp"
        case UDP => s.appProtocol == "udp"
        case OtherProtocol(name) => s.appProtocol == ToLower(name))
    && if l.name == "" then s.name == s.appProtocol + "-" + Decimal(k)
       else
         && |s.name| == (if |l.name| < 63 then |l.name| else 63)
         && forall i :: 0 <= i < |s.name| ==> s.name[i] == if l.name[i] == '.' then '-' else l.name[i]
  }

  predicate IsPortOf(s: ServicePortSpec, ls: seq<Listener>, k: nat) {
    FirstOnPort(ls, k) && s == ServicePortFor(ls[k], k)
  }

  lemma {:induction false} ServicePortsAre(ls: seq<Listener>, s: ServicePortSpec)
    ensures s in ServicePorts(ls) <==> exists k: nat :: IsPortOf(s, ls, k)
  {
    if ls != [] {
      var front, last := ls[..|ls| - 1], ls[|ls| - 1];
      ServicePortsAre(front, s);
      assert ls == front + [last];
      forall k: nat { PortOfOneMore(s, front, last, k); }
      if !ListensOn(front, last.port) && s == ServicePortFor(last, |front|) { assert IsPortOf(s, ls, |front|); }
      if k: nat :| IsPortOf(s, front, k) { assert IsPortOf(s, ls, k); }
    }
  }

  lemma PortOfOneMore(s: ServicePortSpec, front: seq<Listener>, last: Listener, k: nat)
    ensures IsPortOf(s, front + [last], k) <==>
            IsPortOf(s, front, k) || (k == |front| && !ListensOn(front, last.port) && s == ServicePortFor(last, k))
  {
    FirstOneMore(front, last);
    if k < |front| { assert forall j :: 0 <= j <= k ==> (front + [last])[j] == front[j]; }
  }

  /** The ports are those of the first listeners, and describe them. */
  lemma ServicePortsDescribe(ls: seq<Listener>, s: ServicePortSpec)
    ensures s in ServicePorts(ls) <==> exists k: nat :: FirstOnPort(ls, k) && Describes(s, ls[k], k)
  {
    ServicePortsAre(ls, s);
    forall k: nat | k < |ls| ensures s == ServicePortFor(ls[k], k) <==> Describes(s, ls[k], k) {
      PortDescribes(ls[k], k, s);
    }
    if k: nat :| FirstOnPort(ls, k) && Describes(s, ls[k], k) { assert IsPortOf(s, ls, k); }
  }

  lemma FirstOneMore(front: seq<Listener>, last: Listener)
    ensures FirstOnPort(front + [last], |front|) <==> !ListensOn(front, last.port)
  {
    if ListensOn(front, last.port) {
      var j :| 0 <= j < |front| && front[j].port == last.port;
      assert (front + [last])[j].port == last.port;
    }
    forall j | 0 <= j < |front| ensures front[j] in front && (front + [last])[j] == front[j] { }
  }

  lemma PortDescribes(l: Listener, k: nat, s: ServicePortSpec)
    ensures s == ServicePortFor(l, k) <==> Describes(s, l, k)
  {
    assert ToLower("HTTP") == "http" && ToLower("HTTPS") == "https" && ToLower("TLS") == "tls";
    assert ToLower("TCP") == "tcp" && ToLower("UDP") == "udp";
    if Describes(s, l, k) && l.name != "" { assert s.name == SanitizeListenerName(l.name); }
  }

  /** Port names may still collide: dots and dashes are not told apart. */
  lemma ServicePortNamesCanCollide()
    ensures SanitizeListenerName("a.b") == SanitizeListenerName("a-b")
  {
    assert ReplaceChar("a.b", '.', '-') == ReplaceChar("a-b", '.', '-');
  }
}
