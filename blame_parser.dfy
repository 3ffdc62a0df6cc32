/**
 * The `git blame --incremental` parser of `core/src/blame/parser.rs`: a line-driven state
 * machine. A header line (`<40 hex> <orig> <final> [<count>]`) closes the entry being built and
 * starts a new one with every other field reset; key/value lines fill the fields of the current
 * entry; an entry is emitted at the next header or at the end of the input, and only when both
 * its sha and its filename are non-empty.
 */
module BlameParser {
  import opened Wrappers
  import opened Seqs
  import opened Text
  import opened BlameTypes

  const ShaLength: nat := 40
  const ShortShaLength: nat := 7

  const AuthorMail: string := "author-mail "
  const AuthorTime: string := "author-time "
  const AuthorTz: string := "author-tz "
  const Author: string := "author "
  const CommitterMail: string := "committer-mail "
  const CommitterTime: string := "committer-time "
  const CommitterTz: string := "committer-tz "
  const Committer: string := "committer "
  const Summary: string := "summary "
  const Filename: string := "filename "

  // ---------------------------------------------------------------------------
  // is_sha_header
  // ---------------------------------------------------------------------------

  predicate IsHexWord(s: string) {
    forall i :: 0 <= i < |s| ==> IsHexDigit(s[i])
  }

  /**
   * `is_sha_header`: at least three whitespace-separated tokens, the first exactly 40 hex
   * digits, the second and third `u32` numerals.
   */
  predicate IsShaHeader(line: string) {
    var parts := SplitWhitespace(line);
    && |parts| >= 3
    && |parts[0]| == ShaLength
    && IsHexWord(parts[0])
    && ParseUnsigned(parts[1], U32_MAX).Some?
    && ParseUnsigned(parts[2], U32_MAX).Some?
  }

  /**
   * A line whose first token holds a character that is not a hex digit is no header. `j` is
   * the position of that character, with no whitespace before it.
   */
  lemma NonHexIsNotHeader(line: string, j: nat)
    requires j < |line| && !IsHexDigit(line[j])
    requires forall k :: 0 <= k <= j ==> !IsSpace(line[k])
    ensures !IsShaHeader(line)
  {
    assert TrimStart(line) == line;
    var w := Word(line);
    assert |w| > j;
    assert w[j] == line[j];
    assert SplitWhitespace(line)[0] == w;
  }

  /**
   * Key/value lines are never mistaken for headers: a line that starts with one of the keys
   * git writes has a first token that is not 40 hex digits.
   */
  lemma KeyLineIsNotHeader(line: string, key: string)
    requires key in [Author, AuthorMail, AuthorTime, AuthorTz, Committer, CommitterMail, CommitterTime,
                     CommitterTz, Summary, Filename, "previous ", "boundary"]
    requires StartsWith(line, key)
    ensures !IsShaHeader(line)
  {
    assert line[..|key|] == key;
    if key == Summary || key == "previous " {
      assert line[0] == key[0];
      NonHexIsNotHeader(line, 0);
    } else {
      assert line[0] == key[0] && line[1] == key[1];
      NonHexIsNotHeader(line, 1);
    }
  }

  // ---------------------------------------------------------------------------
  // The entry being built
  // ---------------------------------------------------------------------------

  /** The `current_*` variables of the parser: everything of an entry but its short sha. */
  datatype Draft = Draft(
    sha: string,
    origLine: nat,
    finalLine: nat,
    numLines: nat,
    authorName: string,
    authorEmail: string,
    authorDate: nat,
    committerName: string,
    committerEmail: string,
    committerDate: nat,
    summary: string,
    filename: string)

  /** The `u32` in token `k`, or `default` when the token is missing or does not parse. */
  function TokenOr(parts: seq<string>, k: nat, default: nat): nat {
    if k < |parts| then ParseUnsigned(parts[k], U32_MAX).GetOr(default) else default
  }

  /** The entry a header line starts: its sha and line numbers, every other field reset. */
  function HeaderDraft(line: string): Draft
    requires IsShaHeader(line)
  {
    var parts := SplitWhitespace(line);
    Draft(parts[0], TokenOr(parts, 1, 0), TokenOr(parts, 2, 0), TokenOr(parts, 3, 1),
          [], [], 0, [], [], 0, [], [])
  }

  /** A mail value without its angle brackets: every leading `<` and every trailing `>` removed. */
  function MailAddress(v: string): string {
    TrimEndMatches(TrimStartMatches(v, '<'), '>')
  }

  /** An epoch value: the trimmed text as a `u64`, 0 when it does not parse. */
  function EpochOf(v: string): nat {
    var parsed := ParseUnsigned(Trim(v), U64_MAX);
    if parsed.Some? then parsed.value else 0
  }

  /**
   * One key/value line applied to the entry being built. The keys are tested in the order
   * `parse_blame_output` tests them in; `-tz`, `previous` and `boundary` lines and unknown
   * keys change nothing.
   */
  function ApplyField(d: Draft, line: string): Draft {
    if StartsWith(line, AuthorMail) then d.(authorEmail := MailAddress(line[|AuthorMail|..]))
    else if StartsWith(line, AuthorTime) then d.(authorDate := EpochOf(line[|AuthorTime|..]))
    else if StartsWith(line, AuthorTz) then d
    else if StartsWith(line, Author) then d.(authorName := line[|Author|..])
    else if StartsWith(line, CommitterMail) then d.(committerEmail := MailAddress(line[|CommitterMail|..]))
    else if StartsWith(line, CommitterTime) then d.(committerDate := EpochOf(line[|CommitterTime|..]))
    else if StartsWith(line, CommitterTz) then d
    else if StartsWith(line, Committer) then d.(committerName := line[|Committer|..])
    else if StartsWith(line, Summary) then d.(summary := line[|Summary|..])
    else if StartsWith(line, Filename) then d.(filename := line[|Filename|..])
    else d
  }

  /** The first seven characters of the sha, or the whole sha when it is shorter. */
  function ShortSha(sha: string): (s: string)
    ensures s <= sha && |s| == if |sha| >= ShortShaLength then ShortShaLength else |sha|
  {
    if |sha| >= ShortShaLength then sha[..ShortShaLength] else sha
  }

  function Finish(d: Draft): BlameEntry {
    BlameEntry(d.sha, ShortSha(d.sha), d.origLine, d.finalLine, d.numLines, d.authorName,
               d.authorEmail, d.authorDate, d.committerName, d.committerEmail, d.committerDate,
               d.summary, d.filename)
  }

  /** The entry the parser pushes when it closes `current`: only one with a sha and a filename. */
  function Emit(current: Option<Draft>): seq<BlameEntry> {
    if current.Some? && current.value.sha != [] && current.value.filename != [] then [Finish(current.value)]
    else []
  }

  // ---------------------------------------------------------------------------
  // parse_blame_output
  // ---------------------------------------------------------------------------

  /** The parser's state between lines: the entries so far and the entry being built, if any. */
  datatype Scan = Scan(entries: seq<BlameEntry>, current: Option<Draft>)

  const Start: Scan := Scan([], None)

  /** Lines the parser passes over: empty after `trim_end`, or starting with a tab. */
  predicate Skipped(line: string) {
    line == [] || line[0] == '\t'
  }

  /** The state after one input line. */
  function Step(s: Scan, raw: string): Scan {
    var line := TrimEnd(raw);
    if Skipped(line) then s
    else if IsShaHeader(line) then Scan(s.entries + Emit(s.current), Some(HeaderDraft(line)))
    else if s.current.None? then s
    else Scan(s.entries, Some(ApplyField(s.current.value, line)))
  }

  /** The state after a sequence of lines, from the start state. */
  function Run(lines: seq<string>): Scan {
    if lines == [] then Start else Step(Run(lines[..|lines| - 1]), lines[|lines| - 1])
  }

  /** The entries of a sequence of lines: those emitted along the way, then the last one. */
  function BlameOfLines(lines: seq<string>): seq<BlameEntry> {
    var s := Run(lines);
    s.entries + Emit(s.current)
  }

  /**
   * The entries `parse_blame_output` returns. `str::lines` is a split on newlines: the `\r` it
   * also drops and the empty last line it does not yield are removed by `trim_end` and skipped.
   */
  function BlameEntries(input: string): seq<BlameEntry> {
    BlameOfLines(Split(input, '\n'))
  }

  /** `parse_blame_output`. */
  method ParseBlameOutput(input: string) returns (entries: seq<BlameEntry>)
    ensures entries == BlameEntries(input)
  {
    var lines := Split(input, '\n');
    entries := [];
    var current := Draft([], 0, 0, 0, [], [], 0, [], [], 0, [], []);
    var inEntry := false;
    var i := 0;
    while i < |lines|
      invariant i <= |lines|
      invariant Run(lines[..i]) == Scan(entries, if inEntry then Some(current) else None)
    {
      RunStep(lines, i);
      entries, current, inEntry := ScanLine(entries, current, inEntry, lines[i]);
      i := i + 1;
    }
    TakeAll(lines);
    FinalEmit(lines, entries, current, inEntry);
    if inEntry && current.sha != [] && current.filename != [] {
      entries := entries + [Finish(current)];
    }
  }

  /** After the last line, the entry still open is emitted when it is complete. */
  lemma FinalEmit(lines: seq<string>, entries: seq<BlameEntry>, current: Draft, inEntry: bool)
    requires Run(lines) == Scan(entries, if inEntry then Some(current) else None)
    ensures BlameOfLines(lines) ==
      entries + (if inEntry && current.sha != [] && current.filename != [] then [Finish(current)] else [])
  {
  }

  /** The loop body of `parse_blame_output`: one line read into the parser's variables. */
  method ScanLine(entries: seq<BlameEntry>, current: Draft, inEntry: bool, raw: string)
    returns (entries': seq<BlameEntry>, current': Draft, inEntry': bool)
    ensures Scan(entries', if inEntry' then Some(current') else None)
         == Step(Scan(entries, if inEntry then Some(current) else None), raw)
  {
    entries', current', inEntry' := entries, current, inEntry;
    var line := TrimEnd(raw);
    if line == [] || line[0] == '\t' {
      return;
    }
    if IsShaHeader(line) {
      if inEntry && current.sha != [] && current.filename != [] {
        entries' := entries + [Finish(current)];
      }
      current' := HeaderDraft(line);
      inEntry' := true;
    } else if inEntry {
      current' := ApplyField(current, line);
    }
  }

  lemma RunStep(lines: seq<string>, i: nat)
    requires i < |lines|
    ensures Run(lines[..i + 1]) == Step(Run(lines[..i]), lines[i])
  {
    TakeStep(lines, i);
  }

  // ---------------------------------------------------------------------------
  // Properties
  // ---------------------------------------------------------------------------

  /** Empty input gives no entries. */
  lemma EmptyInput()
    ensures BlameEntries("") == []
  {
    assert Split("", '\n') == [""];
    assert Run([""]) == Step(Start, "");
  }

  /** A header starts an entry with the defaults: count 1 when absent or unparsable, nothing else filled. */
  lemma HeaderDefaults(line: string)
    requires IsShaHeader(line)
    ensures var d := HeaderDraft(line); var parts := SplitWhitespace(line);
      && d.sha == parts[0] && |d.sha| == ShaLength && IsHexWord(d.sha)
      && Some(d.origLine) == ParseUnsigned(parts[1], U32_MAX)
      && Some(d.finalLine) == ParseUnsigned(parts[2], U32_MAX)
      && (|parts| == 3 || ParseUnsigned(parts[3], U32_MAX).None? ==> d.numLines == 1)
      && d.authorName == d.authorEmail == d.committerName == d.committerEmail == d.summary == d.filename == []
      && d.authorDate == d.committerDate == 0
  {
  }

  /** No key/value line touches the sha or the line numbers a header set. */
  lemma ApplyFieldKeepsHeader(d: Draft, line: string)
    ensures var r := ApplyField(d, line);
      r.sha == d.sha && r.origLine == d.origLine && r.finalLine == d.finalLine && r.numLines == d.numLines
  {
  }

  /** A line that starts with one key does not start with another that differs from it at `i`. */
  lemma KeysDiffer(line: string, k1: string, k2: string, i: nat)
    requires i < |k1| && i < |k2| && k1[i] != k2[i]
    requires StartsWith(line, k1)
    ensures !StartsWith(line, k2)
  {
    assert line[i] == k1[i];
  }

  /**
   * Each author key sets its own field whatever the order of the tests: the `-mail`, `-time`
   * and `-tz` keys are tested before `author `, and no line starts with two of them.
   */
  lemma AuthorKeys(d: Draft, line: string)
    ensures StartsWith(line, AuthorMail) ==> ApplyField(d, line) == d.(authorEmail := MailAddress(line[12..]))
    ensures StartsWith(line, AuthorTime) ==> ApplyField(d, line) == d.(authorDate := EpochOf(line[12..]))
    ensures StartsWith(line, AuthorTz) ==> ApplyField(d, line) == d
    ensures StartsWith(line, Author) ==> ApplyField(d, line) == d.(authorName := line[7..])
  {
    if StartsWith(line, AuthorTime) {
      KeysDiffer(line, AuthorTime, AuthorMail, 7);
    }
    if StartsWith(line, AuthorTz) {
      KeysDiffer(line, AuthorTz, AuthorMail, 7);
      KeysDiffer(line, AuthorTz, AuthorTime, 8);
    }
    if StartsWith(line, Author) {
      KeysDiffer(line, Author, AuthorMail, 6);
      KeysDiffer(line, Author, AuthorTime, 6);
      KeysDiffer(line, Author, AuthorTz, 6);
    }
  }

  /** A committer line is no author line: the keys differ in their first letter. */
  lemma NotAuthorKey(line: string, key: string)
    requires key != [] && key[0] == 'c' && StartsWith(line, key)
    ensures !StartsWith(line, AuthorMail) && !StartsWith(line, AuthorTime)
    ensures !StartsWith(line, AuthorTz) && !StartsWith(line, Author)
  {
    KeysDiffer(line, key, AuthorMail, 0);
    KeysDiffer(line, key, AuthorTime, 0);
    KeysDiffer(line, key, AuthorTz, 0);
    KeysDiffer(line, key, Author, 0);
  }

  /** Each committer key sets its own field, as the author keys do. */
  lemma CommitterKeys(d: Draft, line: string)
    ensures StartsWith(line, CommitterMail) ==> ApplyField(d, line) == d.(committerEmail := MailAddress(line[15..]))
    ensures StartsWith(line, CommitterTime) ==> ApplyField(d, line) == d.(committerDate := EpochOf(line[15..]))
    ensures StartsWith(line, CommitterTz) ==> ApplyField(d, line) == d
    ensures StartsWith(line, Committer) ==> ApplyField(d, line) == d.(committerName := line[10..])
  {
    if StartsWith(line, CommitterMail) {
      NotAuthorKey(line, CommitterMail);
    }
    if StartsWith(line, CommitterTime) {
      NotAuthorKey(line, CommitterTime);
      KeysDiffer(line, CommitterTime, CommitterMail, 10);
    }
    if StartsWith(line, CommitterTz) {
      NotAuthorKey(line, CommitterTz);
      KeysDiffer(line, CommitterTz, CommitterMail, 10);
      KeysDiffer(line, CommitterTz, CommitterTime, 11);
    }
    if StartsWith(line, Committer) {
      NotAuthorKey(line, Committer);
      KeysDiffer(line, Committer, CommitterMail, 9);
      KeysDiffer(line, Committer, CommitterTime, 9);
      KeysDiffer(line, Committer, CommitterTz, 9);
    }
  }

  /** A line that starts with `key` starts with none of the author or committer keys. */
  lemma NotPersonKey(line: string, key: string)
    requires key != [] && key[0] != 'a' && key[0] != 'c' && StartsWith(line, key)
    ensures !StartsWith(line, AuthorMail) && !StartsWith(line, AuthorTime)
    ensures !StartsWith(line, AuthorTz) && !StartsWith(line, Author)
    ensures !StartsWith(line, CommitterMail) && !StartsWith(line, CommitterTime)
    ensures !StartsWith(line, CommitterTz) && !StartsWith(line, Committer)
  {
    KeysDiffer(line, key, AuthorMail, 0);
    KeysDiffer(line, key, AuthorTime, 0);
    KeysDiffer(line, key, AuthorTz, 0);
    KeysDiffer(line, key, Author, 0);
    KeysDiffer(line, key, CommitterMail, 0);
    KeysDiffer(line, key, CommitterTime, 0);
    KeysDiffer(line, key, CommitterTz, 0);
    KeysDiffer(line, key, Committer, 0);
  }

  /** `summary ` and `filename ` lines set the summary and the filename; other lines change nothing. */
  lemma OtherKeys(d: Draft, line: string)
    ensures StartsWith(line, Summary) ==> ApplyField(d, line) == d.(summary := line[8..])
    ensures StartsWith(line, Filename) ==> ApplyField(d, line) == d.(filename := line[9..])
    ensures StartsWith(line, "previous ") || StartsWith(line, "boundary") ==> ApplyField(d, line) == d
  {
    if StartsWith(line, Summary) {
      NotPersonKey(line, Summary);
    }
    if StartsWith(line, Filename) {
      NotPersonKey(line, Filename);
      KeysDiffer(line, Filename, Summary, 0);
    }
    if StartsWith(line, "previous ") {
      NotPersonKey(line, "previous ");
      KeysDiffer(line, "previous ", Summary, 0);
      KeysDiffer(line, "previous ", Filename, 0);
    }
    if StartsWith(line, "boundary") {
      NotPersonKey(line, "boundary");
      KeysDiffer(line, "boundary", Summary, 0);
      KeysDiffer(line, "boundary", Filename, 0);
    }
  }

  /** A bracketed mail value loses exactly its brackets. */
  lemma MailAddressOfBracketed(e: string)
    requires e == [] || (e[0] != '<' && e[|e| - 1] != '>')
    ensures MailAddress("<" + e + ">") == e
  {
    var v := "<" + e + ">";
    assert v[1..] == e + ">";
    assert TrimStartMatches(e + ">", '<') == e + ">";
    assert (e + ">")[..|e|] == e;
  }

  /** A draft that came from a header: a 40-hex-digit sha. */
  ghost predicate FromHeader(d: Draft) {
    |d.sha| == ShaLength && IsHexWord(d.sha)
  }

  /** What every emitted entry satisfies. */
  ghost predicate WellFormedEntry(e: BlameEntry) {
    && |e.sha| == ShaLength && IsHexWord(e.sha)
    && e.shortSha == e.sha[..ShortShaLength]
    && e.filename != []
  }

  lemma EmitWellFormed(current: Option<Draft>)
    requires current.Some? ==> FromHeader(current.value)
    ensures forall k :: 0 <= k < |Emit(current)| ==> WellFormedEntry(Emit(current)[k])
  {
  }

  /** Every entry so far is well formed, and the entry being built has a header's sha. */
  lemma {:induction false} RunWellFormed(lines: seq<string>)
    ensures forall k :: 0 <= k < |Run(lines).entries| ==> WellFormedEntry(Run(lines).entries[k])
    ensures Run(lines).current.Some? ==> FromHeader(Run(lines).current.value)
  {
    if lines != [] {
      var prev := Run(lines[..|lines| - 1]);
      RunWellFormed(lines[..|lines| - 1]);
      var line := TrimEnd(lines[|lines| - 1]);
      if !Skipped(line) && IsShaHeader(line) {
        EmitWellFormed(prev.current);
        HeaderDefaults(line);
      } else if !Skipped(line) && prev.current.Some? {
        ApplyFieldKeepsHeader(prev.current.value, line);
      }
    }
  }

  /**
   * Every entry has a 40-hex-digit sha, its first seven characters as short sha, and a
   * non-empty filename.
   */
  lemma EntriesWellFormed(input: string)
    ensures forall k :: 0 <= k < |BlameEntries(input)| ==> WellFormedEntry(BlameEntries(input)[k])
  {
    var lines := Split(input, '\n');
    RunWellFormed(lines);
    EmitWellFormed(Run(lines).current);
  }

  /** A line the parser treats as a header. */
  predicate StartsEntry(raw: string) {
    var line := TrimEnd(raw);
    !Skipped(line) && IsShaHeader(line)
  }

  /** One step only ever appends to the entries: it commutes with a fixed prefix of them. */
  lemma StepKeepsPrefix(p: seq<BlameEntry>, s: Scan, raw: string)
    ensures Step(Scan(p + s.entries, s.current), raw) == Scan(p + Step(s, raw).entries, Step(s, raw).current)
  {
    var line := TrimEnd(raw);
    if !Skipped(line) && IsShaHeader(line) {
      assert p + s.entries + Emit(s.current) == p + (s.entries + Emit(s.current));
    }
  }

  /**
   * A header resets the state: running `a` and then lines `b` that start with a header gives
   * the entries of `a` (the last one closed by that header), then exactly what `b` alone gives.
   */
  lemma {:induction false} RunFromHeader(a: seq<string>, b: seq<string>)
    requires b != [] && StartsEntry(b[0])
    ensures Run(a + b) == Scan(BlameOfLines(a) + Run(b).entries, Run(b).current)
  {
    if |b| == 1 {
      assert b == [b[0]];
      HeaderCloses(a, b[0]);
    } else {
      InitOfAppend(a, b);
      var init := b[..|b| - 1];
      RunFromHeader(a, init);
      StepKeepsPrefix(BlameOfLines(a), Run(init), b[|b| - 1]);
    }
  }

  /** A header after lines `a` closes `a`'s open entry and opens its own, as from the start. */
  lemma HeaderCloses(a: seq<string>, h: string)
    requires StartsEntry(h)
    ensures Run(a + [h]) == Scan(BlameOfLines(a) + Run([h]).entries, Run([h]).current)
  {
    RunSnoc(a, h);
    StepHeader(Run(a), h);
    RunSnoc([], h);
    assert [] + [h] == [h];
    StepHeader(Start, h);
  }

  /** Running one more line is one more step. */
  lemma RunSnoc(a: seq<string>, x: string)
    ensures Run(a + [x]) == Step(Run(a), x)
  {
    assert (a + [x])[..|a|] == a;
  }

  /** A header line emits the open entry, if complete, and opens a fresh one. */
  lemma StepHeader(s: Scan, h: string)
    requires StartsEntry(h)
    ensures Step(s, h) == Scan(s.entries + Emit(s.current), Some(HeaderDraft(TrimEnd(h))))
  {
  }

  /**
   * No value leaks across a header, and entries come out in header order: the entries of
   * `a + b`, when `b` starts with a header, are those of `a` followed by those of `b`.
   */
  lemma ChunksIndependent(a: seq<string>, b: seq<string>)
    requires b != [] && StartsEntry(b[0])
    ensures BlameOfLines(a + b) == BlameOfLines(a) + BlameOfLines(b)
  {
    RunFromHeader(a, b);
    var rb := Run(b);
    AppendAssoc(BlameOfLines(a), rb.entries, Emit(rb.current));
  }

  /** Lines without a header leave the parser in its start state. */
  lemma {:induction false} NoHeaderNoState(lines: seq<string>)
    requires forall k :: 0 <= k < |lines| ==> !StartsEntry(lines[k])
    ensures Run(lines) == Start
  {
    if lines != [] {
      NoHeaderNoState(lines[..|lines| - 1]);
    }
  }

  /** Everything before the first header is ignored. */
  lemma PreambleIgnored(junk: seq<string>, b: seq<string>)
    requires forall k :: 0 <= k < |junk| ==> !StartsEntry(junk[k])
    requires b != [] && StartsEntry(b[0])
    ensures BlameOfLines(junk + b) == BlameOfLines(b)
  {
    NoHeaderNoState(junk);
    ChunksIndependent(junk, b);
  }

  /** Two line sequences that reach the same state stay in step when the same lines follow. */
  lemma {:induction false} RunSameSuffix(p: seq<string>, q: seq<string>, b: seq<string>)
    requires Run(p) == Run(q)
    ensures Run(p + b) == Run(q + b)
  {
    if b != [] {
      InitOfAppend(p, b);
      InitOfAppend(q, b);
      RunSameSuffix(p, q, b[..|b| - 1]);
    } else {
      assert p + b == p && q + b == q;
    }
  }

  /** Empty and tab-prefixed lines are ignored wherever they occur. */
  lemma SkippedLineIgnored(a: seq<string>, x: string, b: seq<string>)
    requires Skipped(TrimEnd(x))
    ensures BlameOfLines(a + [x] + b) == BlameOfLines(a + b)
  {
    assert (a + [x])[..|a|] == a;
    RunSameSuffix(a + [x], a, b);
  }
}
