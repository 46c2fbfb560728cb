/** The text operations the services use on lines and datagrams: Rust's
    `split`, `join`, `contains`, `position`, `ends_with`, `pop` and the ASCII
    character classes, over `string` (a sequence of characters). */
module Text {

  /** `u8::is_ascii_alphanumeric` / `char::is_ascii_alphanumeric`. */
  predicate IsAsciiAlphanumeric(c: char)
  {
    ('0' <= c <= '9') || ('A' <= c <= 'Z') || ('a' <= c <= 'z')
  }

  /** `iter().all(is_ascii_alphanumeric)`, consumed front to back. */
  function AllAsciiAlphanumeric(s: string): (r: bool)
    ensures r <==> forall i :: 0 <= i < |s| ==> IsAsciiAlphanumeric(s[i])
  {
    if |s| == 0 then true
    else IsAsciiAlphanumeric(s[0]) && AllAsciiAlphanumeric(s[1..])
  }

  /** `String::pop` / `Vec::pop` with the popped element thrown away: the last
      character goes, and an empty text stays empty. */
  function DropLast(s: string): (r: string)
    ensures |s| == 0 ==> r == s
    ensures |s| > 0 ==> r + [s[|s| - 1]] == s
  {
    if |s| == 0 then s else s[..|s| - 1]
  }

  /** `ends_with(c)` for a single character. */
  predicate EndsWith(s: string, c: char)
  {
    |s| > 0 && s[|s| - 1] == c
  }

  /** `p` is a prefix of `s` (`starts_with`). */
  predicate IsPrefix(p: string, s: string)
  {
    |p| <= |s| && s[..|p|] == p
  }

  /** `str::contains` with a string pattern, tried at every start position from
      the left. The empty pattern is found in every text. */
  function Contains(s: string, t: string): (r: bool)
    ensures r <==> exists i :: 0 <= i <= |s| && IsPrefix(t, s[i..])
    decreases |s|
  {
    if IsPrefix(t, s) then assert s[0..] == s; true
    else if |s| == 0 then false
    else
      var r := Contains(s[1..], t);
      assert forall i :: 1 <= i <= |s| ==> s[i..] == s[1..][i - 1..];
      assert !IsPrefix(t, s[0..]);
      r
  }

  /** `iter().position(|&x| x == c).unwrap()` on a text known to hold `c`. */
  function IndexOf(s: string, c: char): (i: nat)
    requires c in s
    ensures i < |s| && s[i] == c && c !in s[..i]
  {
    if s[0] == c then 0
    else
      var j := IndexOf(s[1..], c);
      assert s[..j + 1] == [s[0]] + s[1..][..j];
      j + 1
  }

  /** The first occurrence is the one with no earlier occurrence. */
  lemma {:induction false} IndexOfFirst(s: string, c: char, j: nat)
    requires j < |s| && s[j] == c && c !in s[..j]
    ensures IndexOf(s, c) == j
  {
    if j > 0 {
      assert s[0] == s[..j][0];
      assert s[1..][..j - 1] == s[1..j];
      IndexOfFirst(s[1..], c, j - 1);
    }
  }

  /** `[String]::join(sep)`: the parts with `sep` between neighbours; no parts
      give the empty text. */
  function Join(parts: seq<string>, sep: string): string
  {
    if |parts| == 0 then ""
    else if |parts| == 1 then parts[0]
    else parts[0] + sep + Join(parts[1..], sep)
  }

  /** Joining a part in front of at least one more puts the separator
      between it and the rest. */
  lemma JoinCons(p: string, parts: seq<string>, sep: string)
    requires |parts| >= 1
    ensures Join([p] + parts, sep) == p + sep + Join(parts, sep)
  {
    assert ([p] + parts)[1..] == parts;
  }

  /** Glueing text onto the front of the first part glues it onto the front of
      the joined text. */
  lemma JoinExtendFirst(a: string, parts: seq<string>, sep: string)
    requires |parts| >= 1
    ensures Join([a + parts[0]] + parts[1..], sep) == a + Join(parts, sep)
  {
    var ps := [a + parts[0]] + parts[1..];
    assert ps[1..] == parts[1..];
  }

  /** `str::split(sep)` with a single-character separator: the maximal runs
      between separators, empty runs included, so there is always one part more
      than there are separators. Joining the parts with the separator gives the
      text back. */
  function Split(s: string, sep: char): (parts: seq<string>)
    ensures |parts| >= 1
    ensures forall i :: 0 <= i < |parts| ==> sep !in parts[i]
    ensures Join(parts, [sep]) == s
    decreases |s|
  {
    if |s| == 0 then [""]
    else
      var rest := Split(s[1..], sep);
      if s[0] == sep then
        assert [s[0]] + s[1..] == s;
        [""] + rest
      else
        JoinExtendFirst([s[0]], rest, [sep]);
        assert [s[0]] + s[1..] == s;
        [[s[0]] + rest[0]] + rest[1..]
  }

  /** A text without the separator is a single part. */
  lemma {:induction false} SplitNoSeparator(s: string, sep: char)
    requires sep !in s
    ensures Split(s, sep) == [s]
    decreases |s|
  {
    if |s| > 0 {
      SplitNoSeparator(s[1..], sep);
    }
  }

  /** A separator-free text followed by the separator is split off as the first
      part. */
  lemma {:induction false} SplitAfterPart(p: string, sep: char, t: string)
    requires sep !in p
    ensures Split(p + [sep] + t, sep) == [p] + Split(t, sep)
    decreases |p|
  {
    var s := p + [sep] + t;
    if |p| == 0 {
      assert s[0] == sep && s[1..] == t;
    } else {
      SplitAfterPart(p[1..], sep, t);
      assert s[0] == p[0] && s[1..] == p[1..] + [sep] + t;
      assert [p[0]] + p[1..] == p;
    }
  }

  /** Splitting undoes joining when no part holds the separator: together with
      the contract of `Split`, the two are inverse to each other. */
  lemma {:induction false} SplitJoin(parts: seq<string>, sep: char)
    requires |parts| >= 1
    requires forall i :: 0 <= i < |parts| ==> sep !in parts[i]
    ensures Split(Join(parts, [sep]), sep) == parts
    decreases |parts|
  {
    if |parts| == 1 {
      SplitNoSeparator(parts[0], sep);
    } else {
      SplitJoin(parts[1..], sep);
      SplitAfterPart(parts[0], sep, Join(parts[1..], [sep]));
      assert [parts[0]] + parts[1..] == parts;
    }
  }

  /** How many characters `read_line` and `read_until` consume: up to and
      including the first newline, or everything left when no newline
      remains. */
  function LineLength(s: string): (n: nat)
    requires |s| > 0
    ensures 0 < n <= |s|
    ensures '\n' !in s[..n - 1]
    ensures '\n' in s <==> s[n - 1] == '\n'
    ensures '\n' !in s ==> n == |s|
  {
    if '\n' in s then IndexOf(s, '\n') + 1 else |s|
  }

  /** Lines with a newline after each. */
  function Unlines(lines: seq<string>): string
  {
    if |lines| == 0 then "" else lines[0] + "\n" + Unlines(lines[1..])
  }

  /** The first line of a newline-terminated stream is read whole, newline
      included, and what is left is the rest of the stream. */
  lemma UnlinesFirstLine(lines: seq<string>)
    requires |lines| > 0 && '\n' !in lines[0]
    ensures var input := Unlines(lines);
            && LineLength(input) == |lines[0]| + 1
            && input[..|lines[0]| + 1] == lines[0] + "\n"
            && input[|lines[0]| + 1..] == Unlines(lines[1..])
  {
    var input := Unlines(lines);
    var n := |lines[0]| + 1;
    assert input[..n] == lines[0] + "\n";
    assert input[n - 1] == '\n';
    var k := IndexOf(input, '\n');
    assert input[..k] == lines[0][..k] by {
      assert k <= |lines[0]| ==> input[..k] == lines[0][..k];
    }
  }

  /** What a loop that reads line after line (`read_line`, `read_until`) and
      writes `respond(line)` for each one writes for a whole stream. */
  function Responses(input: string, respond: string -> string): string
    decreases |input|
  {
    if |input| == 0 then ""
    else
      var n := LineLength(input);
      respond(input[..n]) + Responses(input[n..], respond)
  }

  /** The response to each line of a newline-terminated stream, newline
      included, in order. */
  function ResponsesToLines(lines: seq<string>, respond: string -> string): string
  {
    if |lines| == 0 then "" else respond(lines[0] + "\n") + ResponsesToLines(lines[1..], respond)
  }

  /** A newline-terminated stream is answered line by line. */
  lemma {:induction false} ResponsesLines(lines: seq<string>, respond: string -> string)
    requires forall i :: 0 <= i < |lines| ==> '\n' !in lines[i]
    ensures Responses(Unlines(lines), respond) == ResponsesToLines(lines, respond)
    decreases |lines|
  {
    if |lines| > 0 {
      UnlinesFirstLine(lines);
      ResponsesLines(lines[1..], respond);
    }
  }

  /** A last line without a newline is read, and answered, whole. */
  lemma ResponsesLastLine(line: string, respond: string -> string)
    requires |line| > 0 && '\n' !in line
    ensures Responses(line, respond) == respond(line)
  {
    assert line[..LineLength(line)] == line;
    assert line[LineLength(line)..] == "";
  }
}
