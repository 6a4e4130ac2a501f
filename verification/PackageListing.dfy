/** Reading the list of upgrades out of what the package managers print. */
module PackageListing {
  import opened Sequences
  import opened Wrappers

  // ----- lines and words -----

  const NEWLINE := '\n'
  const RETURN := '\r'

  predicate IsSpace(c: char) {
    var n := c as int;
    || 0x09 <= n <= 0x0D || n == 0x20 || n == 0x85 || n == 0xA0 || n == 0x1680
    || 0x2000 <= n <= 0x200A || n == 0x2028 || n == 0x2029 || n == 0x202F || n == 0x205F || n == 0x3000
  }

  /** The characters with the property White_Space of Unicode. */
  lemma SpacesAre(c: char)
    ensures IsSpace(c) <==>
            c as int in {0x09, 0x0A, 0x0B, 0x0C, 0x0D, 0x20, 0x85, 0xA0, 0x1680, 0x2000, 0x2001, 0x2002, 0x2003, 0x2004,
                         0x2005, 0x2006, 0x2007, 0x2008, 0x2009, 0x200A, 0x2028, 0x2029, 0x202F, 0x205F, 0x3000}
  {
  }

  function WithoutReturn(line: string): string {
    if |line| > 0 && line[|line| - 1] == RETURN then line[..|line| - 1] else line
  }

  /** The lines of a text, each without its terminator "\n" or "\r\n"; an
      unterminated last line keeps a final "\r". */
  function Lines(s: string): seq<string>
    decreases |s|
  {
    if |s| == 0 then []
    else
      var end := FirstIndex(s, NEWLINE);
      if end == |s| then [s] else [WithoutReturn(s[..end])] + Lines(s[end + 1..])
  }

  /** The first word of s and what follows it. */
  function FirstWord(s: string): (r: (string, string))
    ensures |r.0| + |r.1| <= |s|
    ensures |r.0| == 0 ==> |r.1| == 0
  {
    if |s| == 0 then ("", "")
    else if IsSpace(s[0]) then FirstWord(s[1..])
    else (s[..WordEnd(s)], s[WordEnd(s)..])
  }

  function WordEnd(s: string): (r: nat)
    ensures r <= |s| && (r < |s| ==> IsSpace(s[r]))
    ensures forall i | 0 <= i < r :: !IsSpace(s[i])
    ensures |s| > 0 && !IsSpace(s[0]) ==> r > 0
  {
    if |s| == 0 || IsSpace(s[0]) then 0 else 1 + WordEnd(s[1..])
  }

  function SecondWord(s: string): Option<string> {
    var word := FirstWord(FirstWord(s).1).0;
    if |word| == 0 then None else Some(word)
  }

  const MARK := "Inst "

  function LinePackages(line: string): seq<string> {
    if MARK <= line && SecondWord(line).Some? then [SecondWord(line).value] else []
  }

  function AllPackages(lines: seq<string>): seq<string> {
    if |lines| == 0 then [] else LinePackages(lines[0]) + AllPackages(lines[1..])
  }

  /** The packages a listing would upgrade. */
  function ParseUpdates(text: string): seq<string> {
    AllPackages(Lines(text))
  }

  function NonEmpty(lines: seq<string>): (r: seq<string>)
    ensures "" !in r
    ensures "" !in lines ==> r == lines
  {
    if |lines| == 0 then []
    else (if lines[0] == "" then [] else [lines[0]]) + NonEmpty(lines[1..])
  }

  /** Homebrew prints one outdated package a line. */
  function ParseOutdated(text: string): seq<string> {
    NonEmpty(Lines(text))
  }

  // ----- a final carriage return does not matter -----

  lemma {:induction false} WordEndOfReturn(s: string)
    ensures WordEnd(s + [RETURN]) == WordEnd(s)
  {
    if |s| > 0 && !IsSpace(s[0]) {
      assert (s + [RETURN])[1..] == s[1..] + [RETURN];
      WordEndOfReturn(s[1..]);
    }
  }

  lemma {:induction false} FirstWordOfReturn(s: string)
    ensures FirstWord(s + [RETURN]).0 == FirstWord(s).0
    ensures FirstWord(s + [RETURN]).1 == FirstWord(s).1 + if FirstWord(s).0 == "" then "" else [RETURN]
  {
    var t := s + [RETURN];
    if |s| == 0 {
      assert t[1..] == "";
    } else if IsSpace(s[0]) {
      assert t[1..] == s[1..] + [RETURN];
      FirstWordOfReturn(s[1..]);
    } else {
      WordEndOfReturn(s);
      assert t[..WordEnd(s)] == s[..WordEnd(s)];
      assert t[WordEnd(s)..] == s[WordEnd(s)..] + [RETURN];
    }
  }

  lemma ReturnDoesNotMatter(line: string)
    ensures LinePackages(WithoutReturn(line)) == LinePackages(line)
  {
    if |line| > 0 && line[|line| - 1] == RETURN {
      var bare := WithoutReturn(line);
      assert line == bare + [RETURN];
      assert MARK <= line <==> MARK <= bare by {
        assert MARK[4] == ' ' && MARK[3] == 't' && MARK[2] == 's' && MARK[1] == 'n' && MARK[0] == 'I';
      }
      FirstWordOfReturn(bare);
      FirstWordOfReturn(FirstWord(bare).1);
    }
  }

  // ----- joining -----

  lemma {:induction false} AllPackagesConcat(a: seq<string>, b: seq<string>)
    ensures AllPackages(a + b) == AllPackages(a) + AllPackages(b)
  {
    if |a| == 0 {
      assert a + b == b;
    } else {
      assert (a + b)[1..] == a[1..] + b;
      AllPackagesConcat(a[1..], b);
    }
  }

  lemma LineEndAt(line: string, rest: string)
    requires NEWLINE !in line
    ensures FirstIndex(line + [NEWLINE] + rest, NEWLINE) == |line|
    ensures (line + [NEWLINE] + rest)[..|line|] == line
    ensures (line + [NEWLINE] + rest)[|line| + 1..] == rest
  {
    var s := line + [NEWLINE] + rest;
    assert s[|line|] == NEWLINE && forall i | 0 <= i < |line| :: s[i] == line[i];
  }

  /** Parsing one line first. */
  lemma ParseFirstLine(line: string, rest: string)
    requires NEWLINE !in line
    ensures ParseUpdates(line + [NEWLINE] + rest) == LinePackages(line) + ParseUpdates(rest)
  {
    LineEndAt(line, rest);
    ReturnDoesNotMatter(line);
    var s := line + [NEWLINE] + rest;
    assert Lines(s) == [WithoutReturn(line)] + Lines(rest);
    assert Lines(s)[1..] == Lines(rest);
  }

  lemma ParseOnlyLine(line: string)
    requires NEWLINE !in line
    ensures ParseUpdates(line) == LinePackages(line)
  {
    if |line| > 0 {
      assert Lines(line) == [line];
      assert AllPackages([line]) == LinePackages(line) + AllPackages([]);
    }
  }

  lemma Regroup<T>(a: seq<T>, b: seq<T>, c: seq<T>)
    ensures a + b + c == a + (b + c)
  {
  }

  /** Parsing distributes over joining two outputs with a newline. */
  lemma {:induction false} ParseJoined(a: string, b: string)
    ensures ParseUpdates(a + [NEWLINE] + b) == ParseUpdates(a) + ParseUpdates(b)
    decreases |a|
  {
    var end := FirstIndex(a, NEWLINE);
    if end == |a| {
      ParseFirstLine(a, b);
      ParseOnlyLine(a);
    } else {
      var line, rest := a[..end], a[end + 1..];
      var joined := rest + [NEWLINE] + b;
      assert a == line + [NEWLINE] + rest;
      assert a + [NEWLINE] + b == line + [NEWLINE] + joined;
      ParseFirstLine(line, joined);
      ParseFirstLine(line, rest);
      ParseJoined(rest, b);
      Regroup(LinePackages(line), ParseUpdates(rest), ParseUpdates(b));
    }
  }

  // ----- round trip -----

  /** A line of the simulation: an upgrade with whatever follows its name, such as
      the old and the new version, or anything else. */
  datatype Line = Upgrade(gap: string, name: string, tail: string) | Other(text: string)

  predicate IsPackageName(s: string) {
    |s| > 0 && forall i | 0 <= i < |s| :: !IsSpace(s[i])
  }

  predicate IsBlank(s: string) {
    forall i | 0 <= i < |s| :: IsSpace(s[i])
  }

  /** A name ends at white space or with the line; a mark with nothing but white
      space after it is no upgrade. */
  predicate GoodLine(l: Line) {
    match l
    case Upgrade(gap, name, tail) =>
      && IsBlank(gap) && NEWLINE !in gap && IsPackageName(name)
      && NEWLINE !in tail && (|tail| > 0 ==> IsSpace(tail[0]))
    case Other(text) => NEWLINE !in text && (MARK <= text ==> IsBlank(text[|MARK|..]))
  }

  function PrintLine(l: Line): string {
    match l
    case Upgrade(gap, name, tail) => MARK + gap + name + tail
    case Other(text) => text
  }

  function Print(lines: seq<Line>): string {
    if |lines| == 0 then "" else PrintLine(lines[0]) + [NEWLINE] + Print(lines[1..])
  }

  function Names(lines: seq<Line>): seq<string> {
    if |lines| == 0 then []
    else (if lines[0].Upgrade? then [lines[0].name] else []) + Names(lines[1..])
  }

  lemma {:induction false} WordEndAt(word: string, rest: string)
    requires IsPackageName(word) && (|rest| > 0 ==> IsSpace(rest[0]))
    ensures WordEnd(word + rest) == |word|
    ensures FirstWord(word + rest) == (word, rest)
  {
    var s := word + rest;
    assert forall i | 0 <= i < |word| :: s[i] == word[i];
    assert |rest| > 0 ==> s[|word|] == rest[0];
    assert !IsSpace(s[0]);
    assert s[..|word|] == word && s[|word|..] == rest;
    assert WordEnd(s) == |word|;
  }

  lemma {:induction false} FirstWordSkips(gap: string, s: string)
    requires IsBlank(gap)
    ensures FirstWord(gap + s) == FirstWord(s)
  {
    if |gap| == 0 {
      assert gap + s == s;
    } else {
      assert (gap + s)[1..] == gap[1..] + s && (gap + s)[0] == gap[0];
      FirstWordSkips(gap[1..], s);
    }
  }

  lemma MarkIsAWord(rest: string)
    ensures FirstWord(MARK + rest) == ("Inst", " " + rest)
  {
    assert MARK + rest == "Inst" + (" " + rest);
    WordEndAt("Inst", " " + rest);
  }

  lemma UpgradeLineReads(gap: string, name: string, tail: string)
    requires GoodLine(Upgrade(gap, name, tail))
    ensures LinePackages(PrintLine(Upgrade(gap, name, tail))) == [name]
  {
    var line := PrintLine(Upgrade(gap, name, tail));
    assert line == MARK + (gap + (name + tail));
    MarkIsAWord(gap + (name + tail));
    assert " " + (gap + (name + tail)) == (" " + gap) + (name + tail);
    FirstWordSkips(" " + gap, name + tail);
    WordEndAt(name, tail);
  }

  lemma OtherLineReadsNothing(text: string)
    requires GoodLine(Other(text))
    ensures LinePackages(text) == []
  {
    if MARK <= text {
      var rest := text[|MARK|..];
      assert text == MARK + rest;
      MarkIsAWord(rest);
      FirstWordSkips(" " + rest, "");
      assert (" " + rest) + "" == " " + rest;
    }
  }

  lemma GoodLineHasNoNewline(l: Line)
    requires GoodLine(l)
    ensures NEWLINE !in PrintLine(l)
  {
  }

  /** Update listing round trip: whatever other lines stand between, parsing a
      printed listing yields exactly its packages, in order. */
  lemma {:induction false} ListingRoundTrip(lines: seq<Line>)
    requires forall l | l in lines :: GoodLine(l)
    ensures ParseUpdates(Print(lines)) == Names(lines)
  {
    if |lines| > 0 {
      assert lines[0] in lines;
      ListingRoundTrip(lines[1..]);
      GoodLineHasNoNewline(lines[0]);
      ParseFirstLine(PrintLine(lines[0]), Print(lines[1..]));
      if lines[0].Upgrade? {
        UpgradeLineReads(lines[0].gap, lines[0].name, lines[0].tail);
      } else {
        OtherLineReadsNothing(lines[0].text);
      }
    }
  }

  /** A line as a program prints it, ended the one way or the other. */
  datatype Ended = Ended(text: string, withReturn: bool)

  function Printed(line: Ended): string {
    line.text + if line.withReturn then [RETURN, NEWLINE] else [NEWLINE]
  }

  function PrintEnded(lines: seq<Ended>): string {
    if |lines| == 0 then "" else Printed(lines[0]) + PrintEnded(lines[1..])
  }

  function Texts(lines: seq<Ended>): (r: seq<string>)
    ensures |r| == |lines| && forall i | 0 <= i < |r| :: r[i] == lines[i].text
  {
    seq(|lines|, i requires 0 <= i < |lines| => lines[i].text)
  }

  lemma TextsFirst(lines: seq<Ended>)
    requires |lines| > 0
    ensures Texts(lines) == [lines[0].text] + Texts(lines[1..])
  {
  }

  predicate Readable(line: Ended) {
    NEWLINE !in line.text && (!line.withReturn && |line.text| > 0 ==> line.text[|line.text| - 1] != RETURN)
  }

  lemma FirstLineReads(body: string, rest: string)
    requires NEWLINE !in body
    ensures Lines(body + [NEWLINE] + rest) == [WithoutReturn(body)] + Lines(rest)
  {
    LineEndAt(body, rest);
  }

  lemma LineEndedReads(line: Ended, rest: string)
    requires Readable(line)
    ensures Lines(Printed(line) + rest) == [line.text] + Lines(rest)
  {
    var body := line.text + if line.withReturn then [RETURN] else "";
    assert Printed(line) + rest == body + [NEWLINE] + rest;
    FirstLineReads(body, rest);
    assert WithoutReturn(body) == line.text;
  }

  lemma LastLineReads(last: string)
    requires NEWLINE !in last
    ensures Lines(last) == if last == "" then [] else [last]
  {
  }

  /** Lines read back without their ends, of whichever kind, and the last one need
      not be ended. */
  lemma {:induction false} LinesReadBack(lines: seq<Ended>, last: string)
    requires (forall l | l in lines :: Readable(l)) && NEWLINE !in last
    ensures Lines(PrintEnded(lines) + last) == Texts(lines) + if last == "" then [] else [last]
  {
    if |lines| == 0 {
      assert PrintEnded(lines) + last == last;
      LastLineReads(last);
    } else {
      var rest := PrintEnded(lines[1..]);
      Regroup(Printed(lines[0]), rest, last);
      assert lines[0] in lines;
      LineEndedReads(lines[0], rest + last);
      LinesReadBack(lines[1..], last);
      TextsFirst(lines);
      Regroup([lines[0].text], Texts(lines[1..]), if last == "" then [] else [last]);
    }
  }

  /** Leaving out empty lines is done line by line. */
  lemma {:induction false} NonEmptyConcat(a: seq<string>, b: seq<string>)
    ensures NonEmpty(a + b) == NonEmpty(a) + NonEmpty(b)
    ensures NonEmpty([""]) == []
  {
    assert [""][1..] == [];
    if |a| == 0 {
      assert a + b == b;
    } else {
      assert (a + b)[1..] == a[1..] + b;
      NonEmptyConcat(a[1..], b);
    }
  }

  /** Homebrew's listing reads back too, empty lines left out. */
  lemma OutdatedRoundTrip(lines: seq<Ended>, last: string)
    requires (forall l | l in lines :: Readable(l)) && NEWLINE !in last
    ensures ParseOutdated(PrintEnded(lines) + last) == NonEmpty(Texts(lines)) + if last == "" then [] else [last]
    ensures (forall l | l in lines :: l.text != "") && last == "" ==>
              ParseOutdated(PrintEnded(lines) + last) == Texts(lines)
  {
    LinesReadBack(lines, last);
    NonEmptyConcat(Texts(lines), if last == "" then [] else [last]);
  }
}
