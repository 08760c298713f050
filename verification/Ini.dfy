/** The configuration reader and writer: sections of named values, with '#' and ';' starting comments. */
module Ini {
  import opened Collections
  import opened Results

  type Section = map<string, string>

  type File = map<string, Section>

  // ----- Finding and trimming -----

  /** The first position of a character from an offset on, or the length. */
  function Find(s: string, c: char, from: nat): (pos: nat)
    requires from <= |s|
    ensures from <= pos <= |s| && (pos < |s| ==> s[pos] == c)
    ensures forall k :: from <= k < pos ==> s[k] != c
    decreases |s| - from
  {
    if from == |s| || s[from] == c then from else Find(s, c, from + 1)
  }

  /** The first separator ends the part without one. */
  lemma FindAfter(a: string, c: char, b: string)
    requires c !in a
    ensures var s := a + [c] + b;
            Find(s, c, 0) == |a| && s[..|a|] == a && s[|a| + 1..] == b
  {
    var s := a + [c] + b;
    forall k | 0 <= k < |a| ensures s[k] != c {
      assert s[k] == a[k];
    }
    assert s[|a|] == c;
    assert s[|a| + 1..] == b;
  }

  predicate IsSpace(c: char) {
    c == ' ' || c == '\t' || c == '\n' || c == '\r' || c == '\U{0C}' || c == '\U{0B}'
  }

  function TrimEnd(s: string): string {
    if s != "" && IsSpace(s[|s| - 1]) then TrimEnd(s[..|s| - 1]) else s
  }

  function TrimStart(s: string): string {
    if s != "" && IsSpace(s[0]) then TrimStart(s[1..]) else s
  }

  function Trim(s: string): string {
    TrimStart(TrimEnd(s))
  }

  predicate Trimmed(s: string) {
    s != "" ==> !IsSpace(s[0]) && !IsSpace(s[|s| - 1])
  }

  lemma {:induction false} TrimEndFacts(s: string)
    ensures TrimEnd(s) <= s && (TrimEnd(s) != "" ==> !IsSpace(TrimEnd(s)[|TrimEnd(s)| - 1]))
    decreases |s|
  {
    if s != "" && IsSpace(s[|s| - 1]) {
      TrimEndFacts(s[..|s| - 1]);
    }
  }

  lemma {:induction false} TrimStartFacts(s: string)
    ensures |TrimStart(s)| <= |s| && TrimStart(s) == s[|s| - |TrimStart(s)|..]
    ensures TrimStart(s) != "" ==> !IsSpace(TrimStart(s)[0])
    decreases |s|
  {
    if s != "" && IsSpace(s[0]) {
      TrimStartFacts(s[1..]);
    }
  }

  lemma {:induction false} TrimEndKeepsStart(s: string)
    requires s != "" && !IsSpace(s[0])
    ensures TrimEnd(s) != "" && TrimEnd(s)[0] == s[0]
    decreases |s|
  {
    if IsSpace(s[|s| - 1]) {
      TrimEndKeepsStart(s[..|s| - 1]);
    }
  }

  /** Trimming leaves a part of the string without space at its ends, and the string itself if it had none. */
  lemma TrimFacts(s: string)
    ensures Trimmed(Trim(s)) && (Trimmed(s) ==> Trim(s) == s)
    ensures forall c :: c in Trim(s) ==> c in s
    ensures s != "" && !IsSpace(s[0]) ==> Trim(s) != "" && Trim(s)[0] == s[0]
  {
    TrimEndFacts(s);
    TrimStartFacts(TrimEnd(s));
    var e := TrimEnd(s);
    var t := TrimStart(e);
    if t != "" {
      assert t[|t| - 1] == e[|e| - 1];
    }
    if s != "" && !IsSpace(s[0]) {
      TrimEndKeepsStart(s);
    }
  }

  // ----- Comments and escapes -----

  lemma Regroup<T>(a: seq<T>, b: seq<T>, c: seq<T>)
    ensures a + (b + c) == (a + b) + c
  {
  }

  const ESC: char := '\\'

  /** Removes a comment; an escaped prefix loses its escape character instead, and the search goes on behind it. */
  function EraseComment(prefix: char, s: string, from: nat): string
    requires from <= |s|
    decreases |s| - from
  {
    var pos := Find(s, prefix, from);
    if pos == |s| then s
    else if pos != 0 && s[pos - 1] == ESC then EraseComment(prefix, s[..pos - 1] + s[pos..], pos)
    else s[..pos]
  }

  function EraseComments(s: string): string {
    EraseComment(';', EraseComment('#', s, 0), 0)
  }

  /** What one character becomes when it is written. */
  function EscapeChar(c: char, prefixes: set<char>): string {
    if c in prefixes then [ESC, c] else [c]
  }

  /** Puts the escape character before each of the given characters. */
  function Escape(s: string, prefixes: set<char>): string {
    if s == "" then "" else EscapeChar(s[0], prefixes) + Escape(s[1..], prefixes)
  }

  const PREFIXES: set<char> := {'#', ';'}

  lemma {:induction false} EraseSkips(prefix: char, s: string, from: nat, to: nat)
    requires from <= to <= |s| && forall k :: from <= k < to ==> s[k] != prefix
    ensures EraseComment(prefix, s, from) == EraseComment(prefix, s, to)
    decreases |s| - from
  {
    if from < to {
      assert Find(s, prefix, from) == Find(s, prefix, from + 1);
      EraseSkips(prefix, s, from + 1, to);
    }
  }

  lemma EraseEscaped(prefix: char, done: string, tail: string)
    requires prefix != ESC
    ensures EraseComment(prefix, done + ([ESC, prefix] + tail), |done|) ==
            EraseComment(prefix, (done + [prefix]) + tail, |done| + 1)
  {
    var whole := done + ([ESC, prefix] + tail);
    assert whole[|done|] == ESC && whole[|done| + 1] == prefix;
    assert Find(whole, prefix, |done|) == |done| + 1;
    assert whole[..|done|] + whole[|done| + 1..] == (done + [prefix]) + tail;
  }

  lemma EraseKeeps(prefix: char, done: string, head: string, tail: string)
    requires prefix !in head
    ensures EraseComment(prefix, done + (head + tail), |done|) ==
            EraseComment(prefix, (done + head) + tail, |done + head|)
  {
    var whole := done + (head + tail);
    assert whole == (done + head) + tail;
    forall k | |done| <= k < |done + head| ensures whole[k] != prefix {
      assert whole[k] == head[k - |done|];
    }
    EraseSkips(prefix, whole, |done|, |done + head|);
  }

  /** What is left of a line, read from left to right: up to the first prefix that is not escaped, without the
      escapes. */
  function Uncommented(s: string, prefixes: set<char>): string {
    if s == "" || s[0] in prefixes then ""
    else if |s| >= 2 && s[0] == '\\' && s[1] in prefixes then [s[1]] + Uncommented(s[2..], prefixes)
    else [s[0]] + Uncommented(s[1..], prefixes)
  }

  /** Erasing one kind of comment from an offset on, where a prefix is not escaped. */
  lemma {:induction false} EraseIsUncommented(prefix: char, done: string, s: string)
    requires prefix != ESC && (done != "" && done[|done| - 1] == ESC && s != "" ==> s[0] != prefix)
    ensures EraseComment(prefix, done + s, |done|) == done + Uncommented(s, {prefix})
    decreases |s|
  {
    if s == "" {
      assert done + "" == done && Find(done, prefix, |done|) == |done|;
    } else if s[0] == prefix {
      assert Find(done + s, prefix, |done|) == |done| && (done + s)[..|done|] == done + "";
    } else if |s| >= 2 && s[0] == ESC && s[1] == prefix {
      assert s == [ESC, prefix] + s[2..];
      EraseEscaped(prefix, done, s[2..]);
      EraseIsUncommented(prefix, done + [prefix], s[2..]);
      Regroup(done, [prefix], Uncommented(s[2..], {prefix}));
    } else {
      assert s == [s[0]] + s[1..];
      EraseKeeps(prefix, done, [s[0]], s[1..]);
      EraseIsUncommented(prefix, done + [s[0]], s[1..]);
      Regroup(done, [s[0]], Uncommented(s[1..], {prefix}));
    }
  }

  lemma UncommentedStarts(s: string, prefixes: set<char>)
    requires Uncommented(s, prefixes) != ""
    ensures Uncommented(s, prefixes)[0] == s[0] || Uncommented(s, prefixes)[0] in prefixes
  {
  }

  /** First one kind of prefix, then the other, is both at once. */
  lemma {:induction false} BothKinds(s: string)
    ensures Uncommented(Uncommented(s, {'#'}), {';'}) == Uncommented(s, PREFIXES)
    decreases |s|
  {
    if s == "" || s[0] == '#' || s[0] == ';' {
    } else if |s| >= 2 && s[0] == ESC && s[1] in PREFIXES {
      BothKinds(s[2..]);
      if s[1] == ';' {
        assert Uncommented(s[1..], {'#'}) == [';'] + Uncommented(s[2..], {'#'});
      }
      var rest := Uncommented(s[2..], {'#'});
      assert ([s[1]] + rest)[1..] == rest && ([ESC] + ([';'] + rest))[2..] == rest;
    } else {
      BothKinds(s[1..]);
      var rest := Uncommented(s[1..], {'#'});
      assert ([s[0]] + rest)[1..] == rest;
      if rest != "" {
        UncommentedStarts(s[1..], {'#'});
      }
    }
  }

  /** Erasing all comments leaves the line up to its first unescaped '#' or ';', without the escapes before the
      others. */
  lemma EraseCommentsIs(s: string)
    ensures EraseComments(s) == Uncommented(s, PREFIXES)
  {
    var t := Uncommented(s, {'#'});
    assert "" + s == s && "" + t == t && "" + Uncommented(t, {';'}) == Uncommented(t, {';'});
    EraseIsUncommented('#', "", s);
    EraseIsUncommented(';', "", t);
    BothKinds(s);
  }

  lemma {:induction false} UncommentedUndoesEscape(s: string)
    ensures Uncommented(Escape(s, PREFIXES), PREFIXES) == s
  {
    if s != "" {
      var rest := Escape(s[1..], PREFIXES);
      UncommentedUndoesEscape(s[1..]);
      assert (EscapeChar(s[0], PREFIXES) + rest)[|EscapeChar(s[0], PREFIXES)|..] == rest;
      assert s[1..] != "" ==> rest[0] !in PREFIXES;
      assert s == [s[0]] + s[1..];
    }
  }

  /** Reading a line back: erasing the comments undoes the escapes, whatever the string. */
  lemma EraseUndoesEscape(s: string)
    ensures EraseComments(Escape(s, PREFIXES)) == s
  {
    EraseCommentsIs(Escape(s, PREFIXES));
    UncommentedUndoesEscape(s);
  }

  lemma {:induction false} EscapeConcat(s: string, t: string, prefixes: set<char>)
    ensures Escape(s + t, prefixes) == Escape(s, prefixes) + Escape(t, prefixes)
  {
    if s == "" {
      assert s + t == t;
    } else {
      assert (s + t)[1..] == s[1..] + t;
      EscapeConcat(s[1..], t, prefixes);
    }
  }

  lemma {:induction false} EscapeKeepsOut(s: string, c: char, prefixes: set<char>)
    requires c !in s && c != ESC
    ensures c !in Escape(s, prefixes)
  {
    if s != "" {
      EscapeKeepsOut(s[1..], c, prefixes);
    }
  }

  lemma {:induction false} EraseOnlyRemoves(prefix: char, s: string, from: nat, c: char)
    requires from <= |s| && c !in s
    ensures c !in EraseComment(prefix, s, from)
    decreases |s| - from
  {
    var pos := Find(s, prefix, from);
    if pos < |s| && pos != 0 && s[pos - 1] == ESC {
      EraseOnlyRemoves(prefix, s[..pos - 1] + s[pos..], pos, c);
    }
  }

  // ----- Reading -----

  datatype Error = SectionNotClosed | SectionEmpty | FieldHasNoSection | NoSeparator

  /** The file read so far, the section in force, and the error that ended the reading. */
  datatype Parse = Parse(file: File, current: Option<string>, error: Option<Error>) {
    ghost predicate Valid() {
      current.Some? ==> current.value in file
    }
  }

  function DecodeLine(p: Parse, raw: string): (q: Parse)
    requires p.Valid()
    ensures q.Valid()
  {
    var line := Trim(EraseComments(raw));
    if line == "" then p
    else if line[0] == '[' then
      var pos := Find(line, ']', 0);
      if pos == |line| then p.(error := Some(SectionNotClosed))
      else if pos == 1 then p.(error := Some(SectionEmpty))
      else
        var name := line[1..pos];
        p.(file := if name in p.file then p.file else p.file[name := map[]], current := Some(name))
    else if p.current.None? then p.(error := Some(FieldHasNoSection))
    else
      var pos := Find(line, '=', 0);
      if pos == |line| then p.(error := Some(NoSeparator))
      else
        var section := p.current.value;
        p.(file := p.file[section := p.file[section][Trim(line[..pos]) := Trim(line[pos + 1..])]])
  }

  function Lines(s: string): (r: seq<string>)
    ensures |r| > 0
    decreases |s|
  {
    var pos := Find(s, '\n', 0);
    if pos == |s| then [s] else [s[..pos]] + Lines(s[pos + 1..])
  }

  const START: Parse := Parse(map[], None, None)

  /** Reads line after line until one is in error. */
  function DecodeLines(lines: seq<string>): (q: Parse)
    ensures q.Valid()
    decreases |lines|
  {
    if lines == [] then START else
      var p := DecodeLines(lines[..|lines| - 1]);
      if p.error.Some? then p else DecodeLine(p, lines[|lines| - 1])
  }

  function Decoded(text: string): Parse {
    DecodeLines(Lines(text))
  }

  lemma DecodeOneMore(lines: seq<string>, line: string)
    ensures DecodeLines(lines + [line]) ==
            if DecodeLines(lines).error.Some? then DecodeLines(lines) else DecodeLine(DecodeLines(lines), line)
  {
    assert (lines + [line])[..|lines + [line]| - 1] == lines;
  }

  lemma {:induction false} ErrorStays(a: seq<string>, b: seq<string>)
    requires DecodeLines(a).error.Some?
    ensures DecodeLines(a + b) == DecodeLines(a)
    decreases |b|
  {
    if b == [] {
      assert a + b == a;
    } else {
      ErrorStays(a, b[..|b| - 1]);
      assert a + b == a + b[..|b| - 1] + [b[|b| - 1]];
      DecodeOneMore(a + b[..|b| - 1], b[|b| - 1]);
    }
  }

  // ----- Writing -----

  /** A file's sections and their fields in the order in which they are written. */
  type Listing = seq<(string, seq<(string, string)>)>

  function FieldText(key: string, value: string): string {
    Escape(key, PREFIXES) + "=" + Escape(value, PREFIXES)
  }

  function SectionText(name: string): string {
    "[" + Escape(name, PREFIXES) + "]"
  }

  function FieldLines(fields: seq<(string, string)>): seq<string> {
    if fields == [] then []
    else FieldLines(fields[..|fields| - 1]) + [FieldText(fields[|fields| - 1].0, fields[|fields| - 1].1)]
  }

  function ListingLines(l: Listing): seq<string> {
    if l == [] then []
    else ListingLines(l[..|l| - 1]) + [SectionText(l[|l| - 1].0)] + FieldLines(l[|l| - 1].1)
  }

  /** Each line with a newline behind it. */
  function Join(lines: seq<string>): string {
    if lines == [] then "" else lines[0] + "\n" + Join(lines[1..])
  }

  lemma {:induction false} JoinConcat(a: seq<string>, b: seq<string>)
    ensures Join(a + b) == Join(a) + Join(b)
    decreases |a|
  {
    if a == [] {
      assert a + b == b;
    } else {
      assert (a + b)[1..] == a[1..] + b;
      JoinConcat(a[1..], b);
    }
  }

  lemma JoinOne(line: string)
    ensures Join([line]) == line + "\n"
  {
    assert [line][1..] == [];
  }

  function SectionOf(fields: seq<(string, string)>): Section {
    if fields == [] then map[] else SectionOf(fields[..|fields| - 1])[fields[|fields| - 1].0 := fields[|fields| - 1].1]
  }

  function FileOf(l: Listing): File {
    if l == [] then map[] else FileOf(l[..|l| - 1])[l[|l| - 1].0 := SectionOf(l[|l| - 1].1)]
  }

  ghost predicate ListsSection(fields: seq<(string, string)>, s: Section) {
    SectionOf(fields) == s && forall i, j :: 0 <= i < j < |fields| ==> fields[i].0 != fields[j].0
  }

  /** Each section of the file once, each of its fields once, in some order. */
  ghost predicate Lists(l: Listing, f: File) {
    && FileOf(l) == f
    && (forall i, j :: 0 <= i < j < |l| ==> l[i].0 != l[j].0)
    && (forall i :: 0 <= i < |l| ==> ListsSection(l[i].1, SectionOf(l[i].1)))
  }

  lemma FirstLine(s: string)
    ensures var pos := Find(s, '\n', 0);
            Lines(s) == [s[..pos]] + (if pos == |s| then [] else Lines(s[pos + 1..]))
  {
    assert s[..|s|] == s;
  }

  lemma OneMoreLine(lines: seq<string>, line: string)
    ensures Join(lines + [line]) == Join(lines) + line + "\n"
  {
    JoinConcat(lines, [line]);
    JoinOne(line);
  }

  lemma FieldWritten(lines: seq<string>, fields: seq<(string, string)>, key: string, value: string)
    ensures Join(lines + FieldLines(fields + [(key, value)])) ==
            Join(lines + FieldLines(fields)) + Escape(key, PREFIXES) + "=" + Escape(value, PREFIXES) + "\n"
  {
    var longer := fields + [(key, value)];
    assert longer[..|longer| - 1] == fields;
    Regroup(lines, FieldLines(fields), [FieldText(key, value)]);
    OneMoreLine(lines + FieldLines(fields), FieldText(key, value));
  }

  /** The fields listed so far: those no longer pending, each once. */
  ghost predicate FieldsPart(fields: seq<(string, string)>, section: Section, pending: set<string>) {
    && SectionOf(fields) == section - pending
    && forall i, j :: 0 <= i < j < |fields| ==> fields[i].0 != fields[j].0
  }

  lemma {:induction false} FieldIsListed(fields: seq<(string, string)>, i: nat)
    requires i < |fields|
    ensures fields[i].0 in SectionOf(fields)
    decreases |fields|
  {
    if i < |fields| - 1 {
      FieldIsListed(fields[..|fields| - 1], i);
    }
  }

  lemma {:induction false} FieldsHaveKeys(fields: seq<(string, string)>)
    ensures forall k :: k in SectionOf(fields) ==> exists i :: 0 <= i < |fields| && fields[i].0 == k
    decreases |fields|
  {
    if fields != [] {
      FieldsHaveKeys(fields[..|fields| - 1]);
    }
  }

  lemma FieldsGrow(fields: seq<(string, string)>, section: Section, pending: set<string>, key: string)
    requires FieldsPart(fields, section, pending) && key in pending && key in section
    ensures var longer := fields + [(key, section[key])];
            && FieldsPart(longer, section, pending - {key})
            && FieldLines(longer) == FieldLines(fields) + [FieldText(key, section[key])]
  {
    var longer := fields + [(key, section[key])];
    assert longer[..|longer| - 1] == fields;
    assert SectionOf(longer) == section - (pending - {key});
    FieldsHaveKeys(fields);
    forall i | 0 <= i < |fields| ensures fields[i].0 != key {
      FieldIsListed(fields, i);
    }
  }

  /** The sections listed so far: those no longer pending, each once and completely. */
  ghost predicate ListsPart(l: Listing, f: File, pending: set<string>) {
    && FileOf(l) == f - pending
    && (forall i, j :: 0 <= i < j < |l| ==> l[i].0 != l[j].0)
    && (forall i :: 0 <= i < |l| ==> ListsSection(l[i].1, SectionOf(l[i].1)))
  }

  lemma NothingPending(l: Listing, f: File)
    requires ListsPart(l, f, {})
    ensures Lists(l, f)
  {
    assert f - {} == f;
  }

  lemma {:induction false} SectionIsListed(l: Listing, i: nat)
    requires i < |l|
    ensures l[i].0 in FileOf(l)
    decreases |l|
  {
    if i < |l| - 1 {
      SectionIsListed(l[..|l| - 1], i);
    }
  }

  lemma ListingGrows(l: Listing, f: File, pending: set<string>, name: string, fields: seq<(string, string)>)
    requires ListsPart(l, f, pending) && name in pending && name in f && ListsSection(fields, f[name])
    ensures var longer := l + [(name, fields)];
            && ListsPart(longer, f, pending - {name})
            && ListingLines(longer) == ListingLines(l) + [SectionText(name)] + FieldLines(fields)
  {
    var longer := l + [(name, fields)];
    assert longer[..|longer| - 1] == l;
    assert FileOf(longer) == f - (pending - {name});
    forall i | 0 <= i < |l| ensures l[i].0 != name {
      SectionIsListed(l, i);
    }
  }

  class IniFile {
    var sections: File

    /** Recursive; the text is edited in place. */
    static method EraseCommentIn(prefix: char, str: string, startPos: nat) returns (result: string)
      requires startPos <= |str|
      ensures result == EraseComment(prefix, str, startPos)
      decreases |str| - startPos
    {
      var prefixPos := Find(str, prefix, startPos);
      if prefixPos == |str| {
        return str;
      }
      if prefixPos != 0 && str[prefixPos - 1] == ESC {
        result := EraseCommentIn(prefix, str[..prefixPos - 1] + str[prefixPos..], prefixPos);
      } else {
        result := str[..prefixPos];
      }
    }

    static method WriteEscaped(os: string, str: string) returns (out: string)
      ensures out == os + Escape(str, PREFIXES)
    {
      out := os;
      var i := 0;
      while i < |str|
        invariant 0 <= i <= |str| && out + Escape(str[i..], PREFIXES) == os + Escape(str, PREFIXES)
      {
        ghost var head := EscapeChar(str[i], PREFIXES);
        assert str[i..][1..] == str[i + 1..];
        assert out + Escape(str[i..], PREFIXES) == (out + head) + Escape(str[i + 1..], PREFIXES);
        if str[i] == '#' || str[i] == ';' {
          out := out + [ESC];
        }
        out := out + [str[i]];
        i := i + 1;
      }
      assert out + "" == out;
    }

    /** The body of the reading loop. */
    method HandleLine(raw: string, current: Option<string>) returns (next: Option<string>, error: Option<Error>)
      requires current.Some? ==> current.value in sections
      modifies this
      ensures Parse(sections, next, error) == DecodeLine(Parse(old(sections), current, None), raw)
    {
      next, error := current, None;
      var line := EraseCommentIn('#', raw, 0);
      line := EraseCommentIn(';', line, 0);
      line := Trim(line);
      if line == "" {
        return;
      }
      if line[0] == '[' {
        var close := Find(line, ']', 0);
        if close == |line| {
          error := Some(SectionNotClosed);
          return;
        }
        if close == 1 {
          error := Some(SectionEmpty);
          return;
        }
        var name := line[1..close];
        if name !in sections {
          sections := sections[name := map[]];
        }
        next := Some(name);
      } else {
        if current == None {
          error := Some(FieldHasNoSection);
          return;
        }
        var sep := Find(line, '=', 0);
        if sep == |line| {
          error := Some(NoSeparator);
          return;
        }
        var section := current.value;
        sections := sections[section := sections[section][Trim(line[..sep]) := Trim(line[sep + 1..])]];
      }
    }

    method Decode(content: string) returns (error: Option<Error>)
      modifies this
      ensures sections == Decoded(content).file && error == Decoded(content).error
    {
      sections := map[];
      error := None;
      var current: Option<string> := None;
      var rest, eof := content, false;
      ghost var done: seq<string> := [];
      while !eof
        invariant error.None? && DecodeLines(done) == Parse(sections, current, None)
        invariant if eof then done == Lines(content) else done + Lines(rest) == Lines(content)
        decreases if eof then 0 else |rest| + 1
      {
        var pos := Find(rest, '\n', 0);
        ghost var more := if pos == |rest| then [] else Lines(rest[pos + 1..]);
        FirstLine(rest);
        Regroup(done, [rest[..pos]], more);
        DecodeOneMore(done, rest[..pos]);
        current, error := HandleLine(rest[..pos], current);
        done := done + [rest[..pos]];
        if error.Some? {
          ErrorStays(done, more);
          return;
        }
        if pos == |rest| {
          assert done + more == done;
          eof := true;
        } else {
          rest := rest[pos + 1..];
        }
      }
    }

    static method EncodeHeader(os: string, ghost lines: seq<string>, name: string) returns (text: string)
      requires os == Join(lines)
      ensures text == Join(lines + [SectionText(name)])
    {
      text := os + "[";
      text := WriteEscaped(text, name);
      text := text + "]";
      text := text + "\n";
      OneMoreLine(lines, SectionText(name));
    }

    static method EncodeSection(os: string, ghost lines: seq<string>, section: Section)
      returns (text: string, ghost fields: seq<(string, string)>)
      requires os == Join(lines)
      ensures ListsSection(fields, section) && text == Join(lines + FieldLines(fields))
    {
      text, fields := os, [];
      assert lines + [] == lines;
      var pending := section.Keys;
      while pending != {}
        invariant pending <= section.Keys && FieldsPart(fields, section, pending)
        invariant text == Join(lines + FieldLines(fields))
        decreases pending
      {
        var key := AnyOf(pending);
        text := WriteEscaped(text, key);
        text := text + "=";
        text := WriteEscaped(text, section[key]);
        text := text + "\n";
        FieldsGrow(fields, section, pending, key);
        FieldWritten(lines, fields, key, section[key]);
        fields := fields + [(key, section[key])];
        pending := pending - {key};
      }
      assert SectionOf(fields) == section;
    }

    /** Writes the sections, and in each its fields, in any order. */
    method Encode() returns (text: string, ghost listing: Listing)
      ensures Lists(listing, sections) && text == Join(ListingLines(listing))
    {
      text, listing := "", [];
      var pending := sections.Keys;
      while pending != {}
        invariant pending <= sections.Keys && ListsPart(listing, sections, pending)
        invariant text == Join(ListingLines(listing))
        decreases pending
      {
        var name := AnyOf(pending);
        text := EncodeHeader(text, ListingLines(listing), name);
        ghost var fields;
        text, fields := EncodeSection(text, ListingLines(listing) + [SectionText(name)], sections[name]);
        ListingGrows(listing, sections, pending, name, fields);
        listing := listing + [(name, fields)];
        pending := pending - {name};
      }
      NothingPending(listing, sections);
    }
  }

  // ----- Reading back what was written -----

  predicate CleanName(name: string) {
    name != "" && ']' !in name && '\n' !in name
  }

  predicate CleanField(key: string, value: string) {
    && Trimmed(key) && '=' !in key && '\n' !in key && (key != "" ==> key[0] != '[')
    && Trimmed(value) && '\n' !in value
  }

  ghost predicate CleanSection(s: Section) {
    forall k :: k in s ==> CleanField(k, s[k])
  }

  ghost predicate Clean(f: File) {
    forall n :: n in f ==> CleanName(n) && CleanSection(f[n])
  }

  lemma SectionLine(p: Parse, name: string)
    requires p.Valid() && CleanName(name) && name !in p.file
    ensures DecodeLine(p, SectionText(name)) == p.(file := p.file[name := map[]], current := Some(name))
  {
    var line := "[" + name + "]";
    EscapeConcat("[" + name, "]", PREFIXES);
    EscapeConcat("[", name, PREFIXES);
    assert Escape("[", PREFIXES) == "[" && Escape("]", PREFIXES) == "]";
    EraseUndoesEscape(line);
    TrimFacts(line);
    FindAfter("[" + name, ']', "");
    assert line == "[" + name + [']'] + "" && line[1..|line| - 1] == name;
  }

  lemma FieldReadsBack(key: string, value: string)
    requires CleanField(key, value)
    ensures Trim(EraseComments(FieldText(key, value))) == key + "=" + value
  {
    var line := key + "=" + value;
    EscapeConcat(key + "=", value, PREFIXES);
    EscapeConcat(key, "=", PREFIXES);
    assert Escape("=", PREFIXES) == "=";
    EraseUndoesEscape(line);
    TrimFacts(line);
  }

  lemma FieldLine(p: Parse, key: string, value: string)
    requires p.Valid() && p.current.Some? && CleanField(key, value)
    ensures var section := p.current.value;
            DecodeLine(p, FieldText(key, value)) == p.(file := p.file[section := p.file[section][key := value]])
  {
    FieldReadsBack(key, value);
    FindAfter(key, '=', value);
    TrimFacts(key);
    TrimFacts(value);
  }

  /** Splitting joined lines gives them back, and an empty one. */
  lemma {:induction false} LinesOfJoin(lines: seq<string>)
    requires forall k :: 0 <= k < |lines| ==> '\n' !in lines[k]
    ensures Lines(Join(lines)) == lines + [""]
    decreases |lines|
  {
    if lines == [] {
      assert Lines("") == [""];
    } else {
      var rest := Join(lines[1..]);
      FindAfter(lines[0], '\n', rest);
      FirstLine(lines[0] + ['\n'] + rest);
      LinesOfJoin(lines[1..]);
      Regroup([lines[0]], lines[1..], [""]);
      assert lines == [lines[0]] + lines[1..];
    }
  }

  ghost predicate CleanFields(fields: seq<(string, string)>) {
    forall i :: 0 <= i < |fields| ==> CleanField(fields[i].0, fields[i].1)
  }

  lemma {:induction false} FieldLinesHaveNoNewline(fields: seq<(string, string)>, k: nat)
    requires CleanFields(fields) && k < |FieldLines(fields)|
    ensures '\n' !in FieldLines(fields)[k]
    decreases |fields|
  {
    var init, last := fields[..|fields| - 1], fields[|fields| - 1];
    if k < |FieldLines(init)| {
      FieldLinesHaveNoNewline(init, k);
    } else {
      EscapeKeepsOut(last.0, '\n', PREFIXES);
      EscapeKeepsOut(last.1, '\n', PREFIXES);
    }
  }

  ghost predicate CleanListing(l: Listing) {
    && (forall i :: 0 <= i < |l| ==> CleanName(l[i].0) && CleanFields(l[i].1))
    && (forall i, j :: 0 <= i < j < |l| ==> l[i].0 != l[j].0)
  }

  lemma {:induction false} ListingLinesHaveNoNewline(l: Listing, k: nat)
    requires CleanListing(l) && k < |ListingLines(l)|
    ensures '\n' !in ListingLines(l)[k]
    decreases |l|
  {
    var init, last := l[..|l| - 1], l[|l| - 1];
    if k < |ListingLines(init)| {
      ListingLinesHaveNoNewline(init, k);
    } else if k == |ListingLines(init)| {
      EscapeKeepsOut(last.0, '\n', PREFIXES);
    } else {
      FieldLinesHaveNoNewline(last.1, k - |ListingLines(init)| - 1);
    }
  }

  lemma {:induction false} DecodeFieldLines(lines: seq<string>, fields: seq<(string, string)>)
    requires var p := DecodeLines(lines);
             p.error.None? && p.current.Some? && p.file[p.current.value] == map[]
    requires CleanFields(fields)
    ensures var p := DecodeLines(lines);
            DecodeLines(lines + FieldLines(fields)) == p.(file := p.file[p.current.value := SectionOf(fields)])
    decreases |fields|
  {
    var p := DecodeLines(lines);
    if fields == [] {
      assert lines + [] == lines;
      assert p.file[p.current.value := map[]] == p.file;
    } else {
      var init := fields[..|fields| - 1];
      var (key, value) := fields[|fields| - 1];
      DecodeFieldLines(lines, init);
      assert lines + FieldLines(fields) == (lines + FieldLines(init)) + [FieldText(key, value)];
      DecodeOneMore(lines + FieldLines(init), FieldText(key, value));
      FieldLine(DecodeLines(lines + FieldLines(init)), key, value);
    }
  }

  lemma DecodeSectionLines(lines: seq<string>, name: string, fields: seq<(string, string)>)
    requires DecodeLines(lines).error.None? && name !in DecodeLines(lines).file
    requires CleanName(name) && CleanFields(fields)
    ensures var p := DecodeLines(lines);
            DecodeLines(lines + [SectionText(name)] + FieldLines(fields)) ==
            Parse(p.file[name := SectionOf(fields)], Some(name), None)
  {
    DecodeOneMore(lines, SectionText(name));
    SectionLine(DecodeLines(lines), name);
    DecodeFieldLines(lines + [SectionText(name)], fields);
  }

  lemma {:induction false} SectionsHaveNames(l: Listing)
    ensures forall n :: n in FileOf(l) ==> exists i :: 0 <= i < |l| && l[i].0 == n
    decreases |l|
  {
    if l != [] {
      SectionsHaveNames(l[..|l| - 1]);
    }
  }

  /** Reading the lines of a listing gives the listed file. */
  lemma {:induction false} DecodeListing(l: Listing)
    requires CleanListing(l)
    ensures DecodeLines(ListingLines(l)).error.None? && DecodeLines(ListingLines(l)).file == FileOf(l)
    decreases |l|
  {
    if l != [] {
      var init := l[..|l| - 1];
      DecodeListing(init);
      SectionsHaveNames(init);
      DecodeSectionLines(ListingLines(init), l[|l| - 1].0, l[|l| - 1].1);
    }
  }

  lemma DecodeJoined(l: Listing)
    requires CleanListing(l)
    ensures Decoded(Join(ListingLines(l))).error.None? && Decoded(Join(ListingLines(l))).file == FileOf(l)
  {
    var lines := ListingLines(l);
    forall k | 0 <= k < |lines| ensures '\n' !in lines[k] {
      ListingLinesHaveNoNewline(l, k);
    }
    LinesOfJoin(lines);
    DecodeListing(l);
    DecodeOneMore(lines, "");
    EraseUndoesEscape("");
  }

  lemma {:induction false} ListedFieldsAreClean(fields: seq<(string, string)>)
    requires forall i, j :: 0 <= i < j < |fields| ==> fields[i].0 != fields[j].0
    requires CleanSection(SectionOf(fields))
    ensures CleanFields(fields)
    ensures forall k :: k in SectionOf(fields) ==> exists i :: 0 <= i < |fields| && fields[i].0 == k
    decreases |fields|
  {
    if fields != [] {
      var init, last := fields[..|fields| - 1], fields[|fields| - 1];
      FieldsHaveKeys(init);
      assert last.0 in SectionOf(fields) && CleanField(last.0, SectionOf(fields)[last.0]);
      forall k | k in SectionOf(init) ensures CleanField(k, SectionOf(init)[k]) {
        assert k in SectionOf(fields);
      }
      ListedFieldsAreClean(init);
    }
  }

  lemma {:induction false} ListedSectionsAreClean(l: Listing, i: nat)
    requires Lists(l, FileOf(l)) && Clean(FileOf(l)) && i < |l|
    ensures CleanName(l[i].0) && CleanFields(l[i].1)
    decreases |l|
  {
    var init, last := l[..|l| - 1], l[|l| - 1];
    if i == |l| - 1 {
      assert last.0 in FileOf(l) && FileOf(l)[last.0] == SectionOf(last.1);
      assert ListsSection(last.1, SectionOf(last.1));
      ListedFieldsAreClean(last.1);
    } else {
      SectionsHaveNames(init);
      forall n | n in FileOf(init) ensures CleanName(n) && CleanSection(FileOf(init)[n]) {
        assert n in FileOf(l);
      }
      ListedSectionsAreClean(init, i);
    }
  }

  // ----- What reading can yield at all -----

  lemma SectionNameIsClean(line: string)
    requires line != "" && line[0] == '[' && '\n' !in line
    ensures var pos := Find(line, ']', 0);
            pos >= 1 && (1 < pos < |line| ==> CleanName(line[1..pos]))
  {
  }

  lemma FieldIsClean(line: string)
    requires Trimmed(line) && line != "" && line[0] != '[' && '\n' !in line && Find(line, '=', 0) < |line|
    ensures var pos := Find(line, '=', 0);
            CleanField(Trim(line[..pos]), Trim(line[pos + 1..]))
  {
    var pos := Find(line, '=', 0);
    TrimFacts(line[..pos]);
    TrimFacts(line[pos + 1..]);
  }

  lemma DecodeLineKeepsClean(p: Parse, raw: string)
    requires p.Valid() && Clean(p.file) && '\n' !in raw
    ensures Clean(DecodeLine(p, raw).file)
  {
    EraseOnlyRemoves('#', raw, 0, '\n');
    EraseOnlyRemoves(';', EraseComment('#', raw, 0), 0, '\n');
    TrimFacts(EraseComments(raw));
    var line := Trim(EraseComments(raw));
    assert '\n' !in line;
    if line != "" && line[0] == '[' {
      SectionNameIsClean(line);
    } else if line != "" && p.current.Some? && Find(line, '=', 0) < |line| {
      FieldIsClean(line);
    }
  }

  lemma {:induction false} LinesHaveNoNewline(s: string, k: nat)
    requires k < |Lines(s)|
    ensures '\n' !in Lines(s)[k]
    decreases |s|
  {
    var pos := Find(s, '\n', 0);
    if pos < |s| && k > 0 {
      LinesHaveNoNewline(s[pos + 1..], k - 1);
    }
  }

  lemma {:induction false} DecodeLinesKeepsClean(lines: seq<string>)
    requires forall k :: 0 <= k < |lines| ==> '\n' !in lines[k]
    ensures Clean(DecodeLines(lines).file)
    decreases |lines|
  {
    if lines != [] {
      var init := lines[..|lines| - 1];
      DecodeLinesKeepsClean(init);
      if DecodeLines(init).error.None? {
        DecodeLineKeepsClean(DecodeLines(init), lines[|lines| - 1]);
      }
    }
  }

  /** Whatever the text, only clean files can be read. */
  lemma DecodedIsClean(text: string)
    ensures Clean(Decoded(text).file)
  {
    forall k | 0 <= k < |Lines(text)| ensures '\n' !in Lines(text)[k] {
      LinesHaveNoNewline(text, k);
    }
    DecodeLinesKeepsClean(Lines(text));
  }

  /** A file written in any order reads back as itself, without error, exactly when it is clean. */
  lemma ReadsBackExactlyWhenClean(f: File, l: Listing)
    requires Lists(l, f)
    ensures var p := Decoded(Join(ListingLines(l)));
            Clean(f) <==> p.error.None? && p.file == f
  {
    DecodedIsClean(Join(ListingLines(l)));
    if Clean(f) {
      forall i | 0 <= i < |l| ensures CleanName(l[i].0) && CleanFields(l[i].1) {
        ListedSectionsAreClean(l, i);
      }
      DecodeJoined(l);
    }
  }

  /** A key with a space in front is written but not read back. */
  lemma SpacedKeyIsLost(l: Listing)
    requires Lists(l, map["section" := map[" key" := "value"]])
    ensures var p := Decoded(Join(ListingLines(l)));
            p.error.Some? || p.file != map["section" := map[" key" := "value"]]
  {
    var f: File := map["section" := map[" key" := "value"]];
    assert "section" in f && " key" in f["section"];
    assert !Clean(f);
    ReadsBackExactlyWhenClean(f, l);
  }

  // ----- Comments -----

  /** A comment starts here: a prefix with no backslash before it. */
  predicate StartsComment(s: string, i: nat)
    requires i < |s|
  {
    (s[i] == '#' || s[i] == ';') && (i == 0 || s[i - 1] != '\\')
  }

  predicate NoComment(s: string) {
    forall i :: 0 <= i < |s| ==> !StartsComment(s, i)
  }

  /** A string without each backslash that stands before a prefix. */
  function Unescaped(s: string): string {
    if s == "" then ""
    else if |s| >= 2 && s[0] == '\\' && (s[1] == '#' || s[1] == ';') then [s[1]] + Unescaped(s[2..])
    else [s[0]] + Unescaped(s[1..])
  }

  lemma WithoutFirst(s: string)
    requires s != "" && NoComment(s) && !(|s| >= 2 && s[0] == ESC && s[1] in PREFIXES)
    ensures NoComment(s[1..])
  {
    forall i | 0 <= i < |s[1..]| ensures !StartsComment(s[1..], i) {
      assert !StartsComment(s, i + 1);
    }
  }

  lemma WithoutEscaped(s: string)
    requires |s| >= 2 && NoComment(s) && s[0] == ESC && s[1] in PREFIXES
    ensures NoComment(s[2..])
  {
    forall i | 0 <= i < |s[2..]| ensures !StartsComment(s[2..], i) {
      assert !StartsComment(s, i + 2);
    }
  }

  /** What stands before a comment, or alone. */
  lemma {:induction false} UncommentedBefore(s: string, t: string)
    requires NoComment(s) && (t != "" ==> StartsComment(s + t, |s|))
    ensures Uncommented(s + t, PREFIXES) == Unescaped(s)
    decreases |s|
  {
    if s == "" {
      assert s + t == t;
    } else if |s| >= 2 && s[0] == ESC && s[1] in PREFIXES {
      WithoutEscaped(s);
      assert (s + t)[2..] == s[2..] + t;
      UncommentedBefore(s[2..], t);
    } else {
      assert !StartsComment(s, 0);
      WithoutFirst(s);
      assert (s + t)[1..] == s[1..] + t;
      UncommentedBefore(s[1..], t);
    }
  }

  /** Erasing comments gives the part before the first unescaped '#' or ';', if there is one, without the backslashes
      before the others. */
  lemma EraseCommentsExactly(s: string, i: nat)
    requires i <= |s| && NoComment(s[..i]) && (i < |s| ==> StartsComment(s, i))
    ensures EraseComments(s) == Unescaped(s[..i])
  {
    EraseCommentsIs(s);
    assert s == s[..i] + s[i..];
    UncommentedBefore(s[..i], s[i..]);
  }

  /** A comment, with some space before it. */
  predicate IsComment(t: string, space: nat) {
    && space < |t| && (forall k :: 0 <= k < space ==> IsSpace(t[k]))
    && (t[space] == '#' || t[space] == ';') && '\n' !in t
  }

  /** The comment follows the line unescaped. */
  predicate Follows(line: string, t: string, space: nat) {
    IsComment(t, space) && (space == 0 && line != "" ==> line[|line| - 1] != '\\')
  }

  /** The first position of a comment from an offset on, or the length. */
  function CommentFrom(s: string, from: nat): (i: nat)
    requires from <= |s|
    ensures from <= i <= |s| && (i < |s| ==> StartsComment(s, i))
    ensures forall k :: from <= k < i ==> !StartsComment(s, k)
    decreases |s| - from
  {
    if from == |s| || StartsComment(s, from) then from else CommentFrom(s, from + 1)
  }

  lemma FirstComment(s: string) returns (i: nat)
    ensures i <= |s| && NoComment(s[..i]) && (i < |s| ==> StartsComment(s, i))
  {
    i := CommentFrom(s, 0);
    forall k | 0 <= k < i ensures !StartsComment(s[..i], k) {
      assert !StartsComment(s, k);
    }
  }

  lemma {:induction false} TrimEndDropsSpace(s: string, space: string)
    requires forall k :: 0 <= k < |space| ==> IsSpace(space[k])
    ensures TrimEnd(s + space) == TrimEnd(s)
    decreases |space|
  {
    if space == "" {
      assert s + space == s;
    } else {
      assert (s + space)[..|s + space| - 1] == s + space[..|space| - 1];
      TrimEndDropsSpace(s, space[..|space| - 1]);
    }
  }

  lemma {:induction false} SpaceIsKept(space: string)
    requires forall k :: 0 <= k < |space| ==> IsSpace(space[k])
    ensures Unescaped(space) == space
  {
    if space != "" {
      SpaceIsKept(space[1..]);
    }
  }

  /** How many characters the first one left comes from. */
  function Step(s: string): nat {
    if |s| >= 2 && s[0] == ESC && s[1] in PREFIXES then 2 else 1
  }

  lemma UnescapedStep(s: string)
    requires s != ""
    ensures Unescaped(s) == [s[Step(s) - 1]] + Unescaped(s[Step(s)..])
  {
  }

  lemma StepWithSpace(s: string, space: string)
    requires s != "" && forall k :: 0 <= k < |space| ==> IsSpace(space[k])
    ensures Step(s + space) == Step(s) && (s + space)[Step(s) - 1] == s[Step(s) - 1]
    ensures (s + space)[Step(s)..] == s[Step(s)..] + space
  {
  }

  lemma {:induction false} UnescapedSpace(s: string, space: string)
    requires forall k :: 0 <= k < |space| ==> IsSpace(space[k])
    ensures Unescaped(s + space) == Unescaped(s) + space
    decreases |s|
  {
    if s == "" {
      SpaceIsKept(space);
      assert s + space == space;
    } else {
      UnescapedStep(s);
      UnescapedStep(s + space);
      StepWithSpace(s, space);
      UnescapedSpace(s[Step(s)..], space);
      Regroup([s[Step(s) - 1]], Unescaped(s[Step(s)..]), space);
    }
  }

  lemma NoCommentWithSpace(s: string, space: string)
    requires NoComment(s) && forall k :: 0 <= k < |space| ==> IsSpace(space[k])
    ensures NoComment(s + space)
  {
    forall i | 0 <= i < |s + space| ensures !StartsComment(s + space, i) {
      assert i < |s| ==> !StartsComment(s, i);
    }
  }

  /** Whatever the line, an unescaped comment behind it leaves nothing but space. */
  lemma CommentIsErased(line: string, t: string, space: nat)
    requires Follows(line, t, space)
    ensures Trim(EraseComments(line + t)) == Trim(EraseComments(line))
  {
    var i := FirstComment(line);
    EraseCommentsExactly(line, i);
    if i < |line| {
      assert (line + t)[..i] == line[..i] && StartsComment(line + t, i);
      EraseCommentsExactly(line + t, i);
    } else {
      assert line[..i] == line && (line + t)[..|line| + space] == line + t[..space];
      NoCommentWithSpace(line, t[..space]);
      assert (line + t)[|line| + space] == t[space] && StartsComment(line + t, |line| + space);
      EraseCommentsExactly(line + t, |line| + space);
      UnescapedSpace(line, t[..space]);
      TrimEndDropsSpace(Unescaped(line), t[..space]);
    }
  }

  /** A comment behind a line changes nothing, and a line that is only a comment is skipped. */
  lemma CommentChangesNothing(p: Parse, line: string, t: string, space: nat)
    requires p.Valid() && Follows(line, t, space)
    ensures DecodeLine(p, line + t) == DecodeLine(p, line)
    ensures line == "" ==> DecodeLine(p, t) == p
  {
    CommentIsErased(line, t, space);
    EraseCommentsExactly("", 0);
    assert "" + t == t;
  }

  lemma DecodeWithLast(a: seq<string>, b: seq<string>)
    requires b != []
    ensures var p := DecodeLines(a + b[..|b| - 1]);
            DecodeLines(a + b) == if p.error.Some? then p else DecodeLine(p, b[|b| - 1])
  {
    assert a + b == (a + b[..|b| - 1]) + [b[|b| - 1]];
    DecodeOneMore(a + b[..|b| - 1], b[|b| - 1]);
  }

  lemma {:induction false} SameFromThere(a: seq<string>, a': seq<string>, b: seq<string>)
    requires DecodeLines(a) == DecodeLines(a')
    ensures DecodeLines(a + b) == DecodeLines(a' + b)
    decreases |b|
  {
    if b == [] {
      assert a + b == a && a' + b == a';
    } else {
      var init, last := b[..|b| - 1], b[|b| - 1];
      SameFromThere(a, a', init);
      DecodeWithLast(a, b);
      DecodeWithLast(a', b);
    }
  }

  lemma DecodeWhole(lines: seq<string>)
    requires forall k :: 0 <= k < |lines| ==> '\n' !in lines[k]
    ensures Decoded(Join(lines)) == DecodeLines(lines)
  {
    LinesOfJoin(lines);
    DecodeOneMore(lines, "");
    EraseCommentsExactly("", 0);
  }

  ghost predicate NoNewlines(lines: seq<string>) {
    forall k :: 0 <= k < |lines| ==> '\n' !in lines[k]
  }

  lemma SameText(a: seq<string>, a': seq<string>, b: seq<string>)
    requires NoNewlines(a) && NoNewlines(a') && NoNewlines(b) && DecodeLines(a) == DecodeLines(a')
    ensures Decoded(Join(a + b)) == Decoded(Join(a' + b))
  {
    SameFromThere(a, a', b);
    DecodeWhole(a + b);
    DecodeWhole(a' + b);
  }

  /** In any text an unescaped comment behind any line changes nothing of what is read, errors included. */
  lemma CommentsDoNotMatter(before: seq<string>, line: string, t: string, space: nat, after: seq<string>)
    requires NoNewlines(before) && '\n' !in line && NoNewlines(after) && Follows(line, t, space)
    ensures Decoded(Join(before + [line + t] + after)) == Decoded(Join(before + [line] + after))
  {
    DecodeOneMore(before, line + t);
    DecodeOneMore(before, line);
    CommentChangesNothing(DecodeLines(before), line, t, space);
    SameText(before + [line + t], before + [line], after);
  }

  /** Nor does a line that is only a comment, wherever it is inserted. */
  lemma CommentLinesDoNotMatter(before: seq<string>, t: string, space: nat, after: seq<string>)
    requires NoNewlines(before) && NoNewlines(after) && IsComment(t, space)
    ensures Decoded(Join(before + [t] + after)) == Decoded(Join(before + after))
  {
    DecodeOneMore(before, t);
    CommentChangesNothing(DecodeLines(before), "", t, space);
    SameText(before + [t], before, after);
  }

  lemma WrittenLinesHaveNoNewline(f: File, l: Listing)
    requires Lists(l, f) && Clean(f)
    ensures NoNewlines(ListingLines(l))
  {
    forall i | 0 <= i < |l| ensures CleanName(l[i].0) && CleanFields(l[i].1) {
      ListedSectionsAreClean(l, i);
    }
    forall i | 0 <= i < |ListingLines(l)| ensures '\n' !in ListingLines(l)[i] {
      ListingLinesHaveNoNewline(l, i);
    }
  }

  /** In particular a clean file written in any order still reads back with a comment behind one of its lines. */
  lemma CommentedReadsBack(f: File, l: Listing, k: nat, t: string, space: nat)
    requires Lists(l, f) && Clean(f) && k < |ListingLines(l)| && Follows(ListingLines(l)[k], t, space)
    ensures var lines := ListingLines(l);
            var p := Decoded(Join(lines[..k] + [lines[k] + t] + lines[k + 1..]));
            p.error.None? && p.file == f
  {
    var lines := ListingLines(l);
    WrittenLinesHaveNoNewline(f, l);
    CommentsDoNotMatter(lines[..k], lines[k], t, space, lines[k + 1..]);
    assert lines[..k] + [lines[k]] + lines[k + 1..] == lines;
    ReadsBackExactlyWhenClean(f, l);
  }

  // ----- What one line does -----

  /** What is left of a line without comments and without space around it. */
  function Content(raw: string): string {
    Trim(EraseComments(raw))
  }

  /** A line is in error exactly when it opens a section without closing or naming it, or is not empty, opens none, and
      has none before it or no separator in it; it then changes nothing else. */
  lemma LineErrorsExactly(p: Parse, raw: string)
    requires p.Valid() && p.error.None?
    ensures var t, q := Content(raw), DecodeLine(p, raw);
            && (q.error == Some(SectionNotClosed) <==> "[" <= t && ']' !in t)
            && (q.error == Some(SectionEmpty) <==> "[]" <= t)
            && (q.error == Some(FieldHasNoSection) <==> t != "" && !("[" <= t) && p.current.None?)
            && (q.error == Some(NoSeparator) <==> t != "" && !("[" <= t) && p.current.Some? && '=' !in t)
            && (q.error.Some? ==> q.file == p.file && q.current == p.current)
            && (t == "" ==> q == p)
  {
    var t := Content(raw);
    if t != "" && t[0] == '[' {
      var pos := Find(t, ']', 0);
      assert ']' in t <==> pos < |t|;
      assert pos == 1 && pos < |t| <==> |t| >= 2 && t[1] == ']';
    } else if t != "" {
      assert '=' in t <==> Find(t, '=', 0) < |t|;
    }
  }

  /** A line "[name]", with whatever behind it, makes the section current and keeps the fields it has. */
  lemma SectionLineExactly(p: Parse, raw: string, name: string, rest: string)
    requires p.Valid() && p.error.None? && name != "" && ']' !in name && Content(raw) == "[" + name + "]" + rest
    ensures var q := DecodeLine(p, raw);
            && q.error.None? && q.current == Some(name) && q.file.Keys == p.file.Keys + {name}
            && q.file[name] == (if name in p.file then p.file[name] else map[])
            && forall other :: other in p.file ==> q.file[other] == p.file[other]
  {
    FindAfter("[" + name, ']', rest);
    var line := "[" + name + "]" + rest;
    assert line == ("[" + name) + [']'] + rest && line[1..|name| + 1] == name;
  }

  /** A line "key = value" sets the key, in its current section only, to the value; the first '=' counts. */
  lemma FieldLineExactly(p: Parse, raw: string, key: string, value: string)
    requires p.Valid() && p.error.None? && p.current.Some? && '=' !in key
    requires Content(raw) == key + "=" + value && !("[" <= Content(raw))
    ensures var q, section := DecodeLine(p, raw), p.current.value;
            && q.error.None? && q.current == p.current && q.file.Keys == p.file.Keys
            && q.file[section] == p.file[section][Trim(key) := Trim(value)]
            && forall other :: other in p.file && other != section ==> q.file[other] == p.file[other]
  {
    FindAfter(key, '=', value);
  }

  /** Exactly six characters are space. */
  lemma TrimDropsSpace(s: string, c: char)
    ensures TrimEnd(s + [c]) == if c in " \t\n\r\U{0C}\U{0B}" then TrimEnd(s) else s + [c]
    ensures TrimStart([c] + s) == if c in " \t\n\r\U{0C}\U{0B}" then TrimStart(s) else [c] + s
  {
    assert (s + [c])[..|s + [c]| - 1] == s && ([c] + s)[1..] == s;
  }
}
