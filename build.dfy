/** The build script's string processing (build.rs): the dircolors to
    LS_COLORS compiler, the removal of escape markers from the version text,
    and the feature summary. */
module Build {
  import opened Wrappers
  import opened Strings

  /** The two-letter LS_COLORS code of a named dircolors key (`DIR`, `LINK`,
      ...), or None for any other key. */
  function NamedCode(key: string): (r: Option<string>)
    ensures r.Some? ==> |r.value| == 2 && 'a' <= r.value[0] <= 'z' && 'a' <= r.value[1] <= 'z'
    ensures r.Some? ==> |key| > 0 && 'A' <= key[0] <= 'Z'
  {
    match key
    case "NORMAL" => Some("no")
    case "NORM" => Some("no")
    case "FILE" => Some("fi")
    case "RESET" => Some("rs")
    case "RS" => Some("rs")
    case "DIR" => Some("di")
    case "LINK" => Some("ln")
    case "LNK" => Some("ln")
    case "SYMLINK" => Some("ln")
    case "MULTIHARDLINK" => Some("mh")
    case "FIFO" => Some("pi")
    case "PIPE" => Some("pi")
    case "SOCK" => Some("so")
    case "DOOR" => Some("do")
    case "BLK" => Some("bd")
    case "BLOCK" => Some("bd")
    case "CHR" => Some("cd")
    case "CHAR" => Some("cd")
    case "ORPHAN" => Some("or")
    case "MISSING" => Some("mi")
    case "SETUID" => Some("su")
    case "SETGID" => Some("sg")
    case "CAPABILITY" => Some("ca")
    case "STICKY_OTHER_WRITABLE" => Some("tw")
    case "OTHER_WRITABLE" => Some("ow")
    case "STICKY" => Some("st")
    case "EXEC" => Some("ex")
    case _ => None
  }

  /** The LS_COLORS key of a dircolors key: a named key's code, `*` before an
      extension, anything else (a glob such as `*README`, an unknown key)
      unchanged. */
  function LsKey(key: string): (r: string)
    ensures NamedCode(key).Some? ==> r == NamedCode(key).value
    ensures NamedCode(key).None? && StartsWith(key, ".") ==> r == "*" + key
    ensures NamedCode(key).None? && !StartsWith(key, ".") ==> r == key
    ensures forall x :: x in r ==> x in key || x == '*' || 'a' <= x <= 'z'
  {
    match NamedCode(key)
    case Some(code) => code
    case None => if StartsWith(key, ".") then "*" + key else key
  }

  /** Exactly the extension keys and the keys that are already patterns become
      LS_COLORS glob patterns. */
  lemma LsKeyMakesGlobs(key: string)
    ensures StartsWith(LsKey(key), "*") <==> StartsWith(key, ".") || StartsWith(key, "*")
  {
    if NamedCode(key).Some? {
      assert LsKey(key)[0] != '*' && key[0] != '.' && key[0] != '*';
    }
  }

  /** The named keys that are aliases of one another share one code. */
  lemma KeyAliasesAgree()
    ensures NamedCode("NORMAL") == NamedCode("NORM") == Some("no")
    ensures NamedCode("RESET") == NamedCode("RS") == Some("rs")
    ensures NamedCode("LINK") == NamedCode("LNK") == NamedCode("SYMLINK") == Some("ln")
    ensures NamedCode("FIFO") == NamedCode("PIPE") == Some("pi")
    ensures NamedCode("BLK") == NamedCode("BLOCK") == Some("bd")
    ensures NamedCode("CHR") == NamedCode("CHAR") == Some("cd")
  {
  }

  /** One accepted `KEY VALUE` line: the dircolors key as written and its
      value with any trailing comment removed. */
  datatype Setting = Setting(key: string, value: string)

  /** No character of `s` is whitespace. */
  predicate NoWhitespace(s: string) {
    forall k :: 0 <= k < |s| ==> !IsWhitespace(s[k])
  }

  /** What one line of a dircolors file contributes: None for a blank line, a
      comment, a `TERM ` line, a key with nothing after it, or a key whose
      value is empty once its comment is removed. */
  function ParseLine(raw: string): (r: Option<Setting>)
    ensures r.Some? ==> r.value.key != [] && NoWhitespace(r.value.key) && r.value.key[0] != '#'
    ensures r.Some? ==> r.value.value != [] && Trimmed(r.value.value) && '#' !in r.value.value
  {
    var line := Trim(raw);
    if line == [] || line[0] == '#' then None
    else if StartsWith(line, "TERM ") then None
    else
      var (key, rest) := SplitKey(line);
      if rest.None? then None
      else
        var value := ValueOf(rest.value);
        if value == [] then None
        else
          assert line[..|key|][0] == line[0];
          Some(Setting(key, value))
  }

  /** `splitn(2, char::is_whitespace)`: the text before the first whitespace
      character, and the text after it when there is one. */
  function SplitKey(line: string): (r: (string, Option<string>))
    ensures StartsWith(line, r.0) && NoWhitespace(r.0)
    ensures r.1.None? <==> NoWhitespace(line)
    ensures r.1.None? ==> r.0 == line
    ensures r.1.Some? ==> IsWhitespace(line[|r.0|]) && r.1.value == line[|r.0| + 1..]
  {
    var i := WhitespaceIndex(line);
    if i == |line| then (line, None) else (line[..i], Some(line[i + 1..]))
  }

  /** The value after a key: the trimmed text before the first `#` of the
      trimmed remainder of the line. */
  function ValueOf(rest: string): (value: string)
    ensures Trimmed(value) && '#' !in value
    ensures forall x :: x in value ==> x in rest
    ensures exists n :: && 0 <= n <= |Trim(rest)|
                        && '#' !in Trim(rest)[..n]
                        && (n == |Trim(rest)| || Trim(rest)[n] == '#')
                        && value == Trim(Trim(rest)[..n])
  {
    var line := Trim(rest);
    var before := Before(line, '#');
    assert line[..|before|] == before;
    Trim(before)
  }

  /** The LS_COLORS item of a setting. */
  function Item(st: Setting): string {
    LsKey(st.key) + "=" + st.value
  }

  /** The items one line contributes: its item if it is accepted, else none. */
  function LineItems(raw: string): (items: seq<string>)
    ensures |items| <= 1
  {
    match ParseLine(raw)
    case Some(st) => [Item(st)]
    case None => []
  }

  /** What `f` gives for each element of `xs`, concatenated in order. */
  function Collect(f: string -> seq<string>, xs: seq<string>): seq<string> {
    if xs == [] then [] else Collect(f, xs[..|xs| - 1]) + f(xs[|xs| - 1])
  }

  /** Collecting over two runs collects over each, in order. */
  lemma {:induction false} CollectConcat(f: string -> seq<string>, a: seq<string>, b: seq<string>)
    ensures Collect(f, a + b) == Collect(f, a) + Collect(f, b)
    decreases |b|
  {
    if b == [] {
      assert a + b == a;
    } else {
      var init, x := b[..|b| - 1], b[|b| - 1];
      assert b == init + [x];
      AppendAssoc(a, init, [x]);
      CollectSnoc(f, a + init, x);
      CollectSnoc(f, init, x);
      CollectConcat(f, a, init);
      AppendAssoc(Collect(f, a), Collect(f, init), f(x));
    }
  }

  /** Collecting over one more element appends what `f` gives for it. */
  lemma CollectSnoc(f: string -> seq<string>, xs: seq<string>, x: string)
    ensures Collect(f, xs + [x]) == Collect(f, xs) + f(x)
  {
    assert (xs + [x])[..|xs|] == xs;
  }

  /** When `f` turns a text without `c` into pieces without `c`, collecting
      over texts without `c` gives pieces without `c`. */
  lemma {:induction false} CollectAvoids(f: string -> seq<string>, xs: seq<string>, c: char)
    requires forall x :: c !in x ==> forall y :: y in f(x) ==> c !in y
    requires forall k :: 0 <= k < |xs| ==> c !in xs[k]
    ensures forall j :: 0 <= j < |Collect(f, xs)| ==> c !in Collect(f, xs)[j]
  {
    if xs != [] {
      var init, x := xs[..|xs| - 1], xs[|xs| - 1];
      assert xs == init + [x];
      CollectSnoc(f, init, x);
      CollectAvoids(f, init, c);
      var r := Collect(f, xs);
      forall j | 0 <= j < |r|
        ensures c !in r[j]
      {
        if j >= |Collect(f, init)| {
          assert r[j] in f(x);
        }
      }
    }
  }

  /** Collecting at most one item per element yields at most one item per element. */
  lemma {:induction false} CollectLength(f: string -> seq<string>, xs: seq<string>)
    requires forall x :: |f(x)| <= 1
    ensures |Collect(f, xs)| <= |xs|
  {
    if xs != [] {
      CollectLength(f, xs[..|xs| - 1]);
    }
  }

  /** The items of the accepted lines, in input order. */
  function Compiled(lines: seq<string>): (items: seq<string>)
    ensures |items| <= |lines|
  {
    CollectLength(LineItems, lines);
    Collect(LineItems, lines)
  }

  /** The lines of a file, or the first error met while reading them. */
  function ReadLines(lines: seq<Result<string>>): (r: Result<seq<string>>)
    ensures r.Ok? ==> |r.value| == |lines|
    ensures r.Ok? ==> forall k :: 0 <= k < |lines| ==> lines[k] == Ok(r.value[k])
    ensures r.Ok? <==> forall k :: 0 <= k < |lines| ==> lines[k].Ok?
    ensures r.Err? ==>
      exists k :: 0 <= k < |lines| && lines[k] == Err(r.error) && forall j :: 0 <= j < k ==> lines[j].Ok?
  {
    if lines == [] then Ok([])
    else
      var front := lines[..|lines| - 1];
      assert forall k :: 0 <= k < |front| ==> front[k] == lines[k];
      match ReadLines(front)
      case Err(e) => Err(e)
      case Ok(read) =>
        match lines[|lines| - 1]
        case Err(e) => Err(e)
        case Ok(line) =>
          assert forall k :: 0 <= k < |read| ==> (read + [line])[k] == read[k];
          Ok(read + [line])
  }

  /** The LS_COLORS text for a dircolors file, or the error that stopped it. */
  function CompiledFile(file: Result<seq<Result<string>>>): Result<string> {
    match file
    case Err(e) => Err(e)
    case Ok(lines) =>
      match ReadLines(lines)
      case Err(e) => Err(e)
      case Ok(read) => Ok(Join(Compiled(read), ":"))
  }

  /** Once a prefix of the lines fails to read, the whole file does. */
  lemma {:induction false} ReadErrorPersists(lines: seq<Result<string>>, n: nat)
    requires n <= |lines| && ReadLines(lines[..n]).Err?
    ensures ReadLines(lines) == ReadLines(lines[..n])
    decreases |lines| - n
  {
    if n < |lines| {
      assert lines[..n + 1][..n] == lines[..n];
      ReadErrorPersists(lines, n + 1);
    } else {
      assert lines[..n] == lines;
    }
  }

  /** `compile_ls_colors`: reads the file a line at a time, skips what
      contributes nothing, and joins the LS_COLORS items with `:`. `file` is
      what opening the file gave, and each of its elements what reading that
      line gave. */
  method CompileLsColors(file: Result<seq<Result<string>>>) returns (r: Result<string>)
    ensures r == CompiledFile(file)
    ensures file == Ok([]) ==> r == Ok("")
  {
    if file.Err? {
      return Err(file.error);
    }
    var lines := file.value;
    var entries: seq<string> := [];
    ghost var read: seq<string> := [];
    for i := 0 to |lines|
      invariant ReadLines(lines[..i]) == Ok(read)
      invariant entries == Compiled(read)
    {
      assert lines[..i + 1][..i] == lines[..i];
      if lines[i].Err? {
        ReadErrorPersists(lines, i + 1);
        return Err(lines[i].error);
      }
      var raw := lines[i].value;
      CollectSnoc(LineItems, read, raw);
      read := read + [raw];
      var line := Trim(raw);
      if line == [] || line[0] == '#' {
        assert ParseLine(raw).None?;
        continue;
      }
      if StartsWith(line, "TERM ") {
        assert ParseLine(raw).None?;
        continue;
      }
      var (key, rest) := SplitKey(line);
      if rest.None? {
        assert ParseLine(raw).None?;
        continue;
      }
      var value := ValueOf(rest.value);
      if value == [] {
        assert ParseLine(raw).None?;
        continue;
      }
      assert ParseLine(raw) == Some(Setting(key, value));
      entries := entries + [LsKey(key) + "=" + value];
    }
    assert lines[..|lines|] == lines;
    r := Ok(Join(entries, ":"));
  }

  /** The items of two runs of lines are the items of each, in order. */
  lemma CompiledConcat(a: seq<string>, b: seq<string>)
    ensures Compiled(a + b) == Compiled(a) + Compiled(b)
  {
    CollectConcat(LineItems, a, b);
  }

  /** An accepted line contributes exactly one item. */
  lemma CompiledLine(raw: string, st: Setting)
    requires ParseLine(raw) == Some(st)
    ensures Compiled([raw]) == [Item(st)]
  {
    CollectSnoc(LineItems, [], raw);
    assert [] + [raw] == [raw];
  }

  /** A skipped line contributes nothing. */
  lemma CompiledSkip(raw: string)
    requires ParseLine(raw) == None
    ensures Compiled([raw]) == []
  {
    CollectSnoc(LineItems, [], raw);
    assert [] + [raw] == [raw];
  }

  /** The first whitespace character after a run of non-whitespace. */
  lemma WhitespaceIndexAfter(a: string, c: char, b: string)
    requires NoWhitespace(a) && IsWhitespace(c)
    ensures WhitespaceIndex(a + [c] + b) == |a|
  {
    var s := a + [c] + b;
    var i := WhitespaceIndex(s);
    assert s[|a|] == c;
  }

  /** A line that starts with a whitespace-free key and a whitespace
      character starts with `TERM ` only when that key is `TERM` and that
      character a space. */
  lemma NotTermLine(key: string, c: char, rest: string)
    requires NoWhitespace(key) && IsWhitespace(c) && (key != "TERM" || c != ' ')
    ensures !StartsWith(key + [c] + rest, "TERM ")
  {
    var s := key + [c] + rest;
    if 5 <= |s| {
      if |key| < 4 {
        assert s[..5][|key|] == s[|key|] == c;
      } else if |key| == 4 && key == "TERM" {
        assert s[..5][4] == s[4] == c;
      } else if |key| == 4 {
        assert s[..5][..4] == s[..4] == key;
      } else {
        assert s[..5][4] == s[4] == key[4];
      }
    }
  }

  /** A line made of a key, one whitespace character and any remainder is
      parsed into that key and the remainder's value, or skipped when that
      value is empty; only `TERM` followed by a space is a `TERM ` line. */
  lemma KeyAndRest(key: string, sep: char, rest: string)
    requires key != [] && NoWhitespace(key) && key[0] != '#'
    requires IsWhitespace(sep) && (key != "TERM" || sep != ' ')
    ensures ParseLine(key + [sep] + rest) ==
      if ValueOf(rest) == [] then None else Some(Setting(key, ValueOf(rest)))
  {
    if AllWhitespace(rest) {
      KeyAndBlank(key, sep, rest);
    } else {
      var r := TrimEnd(rest);
      TrimKeyLine(key, sep, rest);
      ParseLineTrims(key + [sep] + rest);
      NotTermLine(key, sep, r);
      KeyAndRemainder(key, sep, r);
      TrimEndTrim(rest);
    }
  }

  /** A key followed by whitespace only contributes nothing. */
  lemma KeyAndBlank(key: string, sep: char, rest: string)
    requires key != [] && NoWhitespace(key) && key[0] != '#'
    requires IsWhitespace(sep) && AllWhitespace(rest)
    ensures ParseLine(key + [sep] + rest) == None && ValueOf(rest) == []
  {
    TrimKeyLine(key, sep, rest);
    ParseLineTrims(key + [sep] + rest);
    KeyAloneSkipped(key);
    TrimStartAt(rest, |rest|);
  }

  /** Trimming a line that starts with a trimmed key and a whitespace
      character: only the remainder's end is trimmed, or the whole of it when
      it is all whitespace. */
  lemma TrimKeyLine(key: string, sep: char, rest: string)
    requires key != [] && Trimmed(key) && IsWhitespace(sep)
    ensures Trim(key + [sep] + rest) ==
      if AllWhitespace(rest) then key else key + [sep] + TrimEnd(rest)
  {
    var raw := key + [sep] + rest;
    KeyLineStart(key, sep, rest);
    if AllWhitespace(rest) {
      KeyLineBlankEnd(key, sep, rest);
    } else {
      TrimEndJoin(key + [sep], rest);
    }
  }

  /** A line that is a trimmed key followed by whitespace only ends with the key. */
  lemma KeyLineBlankEnd(key: string, sep: char, rest: string)
    requires Trimmed(key) && IsWhitespace(sep) && AllWhitespace(rest)
    ensures TrimEnd(key + [sep] + rest) == key
  {
    var tail := [sep] + rest;
    assert AllWhitespace(tail) by {
      assert forall k :: 1 <= k < |tail| ==> tail[k] == rest[k - 1];
    }
    AppendAssoc(key, [sep], rest);
    TrimEndJoin(key, tail);
    TrimEndAt(key, |key|);
  }

  /** Nothing is trimmed from the start of a line that starts with a key. */
  lemma KeyLineStart(key: string, sep: char, rest: string)
    requires key != [] && !IsWhitespace(key[0])
    ensures TrimStart(key + [sep] + rest) == key + [sep] + rest
  {
    var raw := key + [sep] + rest;
    assert raw[0] == key[0];
    TrimStartAt(raw, 0);
  }

  /** The same, for a remainder that does not end in whitespace and a line
      that does not start with `TERM `. */
  lemma KeyAndRemainder(key: string, sep: char, rest: string)
    requires key != [] && NoWhitespace(key) && key[0] != '#'
    requires IsWhitespace(sep)
    requires rest != [] && !IsWhitespace(rest[|rest| - 1])
    requires !StartsWith(key + [sep] + rest, "TERM ")
    ensures ParseLine(key + [sep] + rest) ==
      if ValueOf(rest) == [] then None else Some(Setting(key, ValueOf(rest)))
  {
    var raw := key + [sep] + rest;
    assert raw[0] == key[0] && raw[|raw| - 1] == rest[|rest| - 1];
    assert Trim(raw) == raw;
    SplitKeyAt(key, sep, rest);
  }

  /** A whitespace-free key and one whitespace character split off the
      remainder after them. */
  lemma SplitKeyAt(key: string, sep: char, rest: string)
    requires NoWhitespace(key) && IsWhitespace(sep)
    ensures SplitKey(key + [sep] + rest) == (key, Some(rest))
  {
    WhitespaceIndexAfter(key, sep, rest);
    AroundSeparator(key, sep, rest);
  }

  /** Whitespace before a line makes no difference to how it is parsed. */
  lemma LeadingWhitespaceIgnored(pad: string, raw: string)
    requires AllWhitespace(pad)
    ensures ParseLine(pad + raw) == ParseLine(raw)
  {
    TrimStartPad(pad, raw);
    ParseLineTrims(pad + raw);
    ParseLineTrims(raw);
  }

  /** `KEY VALUE`, with any run of whitespace between key and value and any
      whitespace after the value, is accepted as exactly that key and value. */
  lemma KeyValueLine(key: string, sep: char, gap: string, value: string, trail: string)
    requires key != [] && NoWhitespace(key) && key[0] != '#'
    requires IsWhitespace(sep) && (key != "TERM" || sep != ' ')
    requires AllWhitespace(gap) && AllWhitespace(trail)
    requires value != [] && Trimmed(value) && '#' !in value
    ensures ParseLine(key + [sep] + gap + value + trail) == Some(Setting(key, value))
  {
    var head := key + [sep];
    var rest := gap + value + trail;
    assert key + [sep] + gap + value + trail == head + rest by {
      AppendAssoc(head, gap, value);
      AppendAssoc(head, gap + value, trail);
    }
    PaddedValue(gap, value, trail);
    KeyAndRest(key, sep, rest);
  }

  /** A value with whitespace on either side and no `#` is read as itself. */
  lemma PaddedValue(gap: string, value: string, trail: string)
    requires AllWhitespace(gap) && AllWhitespace(trail)
    requires value != [] && Trimmed(value) && '#' !in value
    ensures ValueOf(gap + value + trail) == value
  {
    assert Trim(gap + value + trail) == value by {
      TrimPadded(gap, value, trail);
    }
    assert Before(value, '#') == value by {
      var r := Before(value, '#');
      assert |r| == |value|;
    }
  }

  /** `KEY VALUE #comment` is accepted as that key and value: the comment is
      dropped with the whitespace before it, whatever the comment holds. */
  lemma CommentedLine(key: string, sep: char, gap: string, value: string, space: string, note: string)
    requires key != [] && NoWhitespace(key) && key[0] != '#'
    requires IsWhitespace(sep) && (key != "TERM" || sep != ' ')
    requires AllWhitespace(gap) && AllWhitespace(space)
    requires value != [] && Trimmed(value) && '#' !in value
    ensures ParseLine(key + [sep] + gap + value + space + "#" + note) == Some(Setting(key, value))
  {
    var head := key + [sep];
    AppendAssoc(head, gap, value);
    AppendAssoc(head, gap + value, space);
    AppendAssoc(head, gap + value + space, "#");
    AppendAssoc(head, gap + value + space + "#", note);
    CommentValue(gap, value, space, note);
    KeyAndRest(key, sep, gap + value + space + "#" + note);
  }

  /** The value of a remainder made of whitespace, a value, whitespace and a
      `#` comment is that value. */
  lemma CommentValue(gap: string, value: string, space: string, note: string)
    requires AllWhitespace(gap) && AllWhitespace(space)
    requires value != [] && Trimmed(value) && '#' !in value
    ensures ValueOf(gap + value + space + "#" + note) == value
  {
    var plain := value + space;
    var head := plain + "#";
    var q := TrimEnd(note);
    assert Trim(gap + value + space + "#" + note) == plain + ['#'] + q by {
      AppendAssoc(gap, value, space);
      AppendAssoc(gap, plain, "#");
      assert head[0] == value[0] && head[|head| - 1] == '#';
      TrimCommentRest(gap, head, note);
    }
    assert Before(plain + ['#'] + q, '#') == plain by {
      assert '#' !in plain by {
        assert !IsWhitespace('#');
      }
      BeforeSeparator(plain, '#', q);
    }
    TrimDropsPadding(value, space);
  }

  /** Trimming whitespace, a text that starts with a non-whitespace character
      and ends with `#`, and a comment: the text stays whole and only the
      comment's end is trimmed. */
  lemma TrimCommentRest(gap: string, head: string, note: string)
    requires AllWhitespace(gap)
    requires head != [] && !IsWhitespace(head[0]) && head[|head| - 1] == '#'
    ensures Trim(gap + head + note) == head + TrimEnd(note)
  {
    var y := head + note;
    assert TrimStart(gap + head + note) == y by {
      AppendAssoc(gap, head, note);
      TrimStartPad(gap, y);
      assert y[0] == head[0];
      TrimStartAt(y, 0);
    }
    TrimEndAfter(head, note);
  }

  /** A line that begins `TERM ` contributes nothing, whatever follows. */
  lemma TermLineSkipped(s: string)
    requires StartsWith(s, "TERM ")
    ensures ParseLine(s) == None
  {
    assert s[0] == s[..5][0];
    var start := TrimStart(s);
    assert !IsWhitespace(s[0]);
    assert |start| == |s|;
    assert start == s;
    var line := Trim(s);
    assert line == TrimEnd(s) && line == s[..|line|];
    if |line| <= 4 {
      assert !IsWhitespace(s[|line| - 1]) by {
        assert line[|line| - 1] == s[|line| - 1];
      }
      assert NoWhitespace(line) by {
        forall k | 0 <= k < |line|
          ensures !IsWhitespace(line[k])
        {
          assert line[k] == s[k];
        }
      }
    } else {
      assert line[..5] == s[..5];
    }
  }

  /** A line that is empty or a comment after trimming contributes nothing. */
  lemma BlankAndCommentLinesSkipped(raw: string)
    requires Trim(raw) == [] || Trim(raw)[0] == '#'
    ensures ParseLine(raw) == None
  {
  }

  /** A key with nothing after it, or followed by whitespace and a remainder
      whose value is empty (blank before its first `#`), contributes nothing. */
  lemma MissingValueSkipped(key: string, sep: char, rest: string)
    requires key != [] && NoWhitespace(key) && key[0] != '#'
    requires IsWhitespace(sep)
    requires ValueOf(rest) == []
    ensures ParseLine(key) == None
    ensures ParseLine(key + [sep] + rest) == None
  {
    KeyAloneSkipped(key);
    if key == "TERM" && sep == ' ' {
      TermKeyText(rest);
      TermLineSkipped(key + [sep] + rest);
    } else {
      assert ParseLine(key + [sep] + rest) == None by {
        KeyAndRest(key, sep, rest);
      }
    }
  }

  /** The key `TERM` followed by a space is a `TERM ` line. */
  lemma TermKeyText(rest: string)
    ensures StartsWith("TERM" + [' '] + rest, "TERM ")
  {
    assert ("TERM" + [' '] + rest)[..5] == "TERM ";
  }

  /** A line is parsed as its trimmed text is. */
  lemma ParseLineTrims(raw: string)
    ensures ParseLine(raw) == ParseLine(Trim(raw))
  {
    assert Trim(Trim(raw)) == Trim(raw);
  }

  /** A key with nothing after it contributes nothing. */
  lemma KeyAloneSkipped(key: string)
    requires key != [] && NoWhitespace(key) && key[0] != '#'
    ensures ParseLine(key) == None
  {
    assert Trim(key) == key;
    assert WhitespaceIndex(key) == |key|;
  }

  /** The key and value of an accepted line are made of the line's characters. */
  lemma ParsedCharacters(raw: string, st: Setting, x: char)
    requires ParseLine(raw) == Some(st)
    requires x in st.key || x in st.value
    ensures x in raw
  {
    var line := Trim(raw);
    var (key, rest) := SplitKey(line);
    assert st.key == key && rest.Some? && st.value == ValueOf(rest.value);
    if x in key {
      assert key == line[..|key|];
    } else {
      assert x in rest.value && rest.value == line[|key| + 1..];
    }
    assert x in line;
  }

  /** An item holds no character beyond those of its line, `=`, `*` and the
      letters of a code. */
  lemma ItemCharacters(raw: string, st: Setting, x: char)
    requires ParseLine(raw) == Some(st)
    requires x in Item(st)
    ensures x in raw || x == '=' || x == '*' || 'a' <= x <= 'z'
  {
    ItemParts(st, x);
    if x in st.key || x in st.value {
      ParsedCharacters(raw, st, x);
    }
  }

  /** An item holds no character beyond those of its setting, `=`, `*` and
      the letters of a code. */
  lemma ItemParts(st: Setting, x: char)
    requires x in Item(st)
    ensures x in st.key || x in st.value || x == '=' || x == '*' || 'a' <= x <= 'z'
  {
    var k := LsKey(st.key);
    assert Item(st) == k + "=" + st.value;
    if x !in k && x !in st.value {
      assert x in "=";
    }
  }

  /** When no line holds a `:`, no item does. */
  lemma ItemsWithoutSeparator(lines: seq<string>)
    requires forall k :: 0 <= k < |lines| ==> ':' !in lines[k]
    ensures forall j :: 0 <= j < |Compiled(lines)| ==> ':' !in Compiled(lines)[j]
  {
    forall raw | ':' !in raw
      ensures forall y :: y in LineItems(raw) ==> ':' !in y
    {
      LineItemsWithoutSeparator(raw);
    }
    CollectAvoids(LineItems, lines, ':');
  }

  /** A line without a `:` contributes no item with one. */
  lemma LineItemsWithoutSeparator(raw: string)
    requires ':' !in raw
    ensures forall y :: y in LineItems(raw) ==> ':' !in y
  {
    if ParseLine(raw).Some? {
      var st := ParseLine(raw).value;
      if ':' in Item(st) {
        ItemCharacters(raw, st, ':');
      }
      assert LineItems(raw) == [Item(st)];
    }
  }

  /** The LS_COLORS text splits at `:` back into its items, in order, as long
      as no line of the source holds a `:` and at least one line is
      accepted. */
  lemma CompiledItemsRecoverable(lines: seq<string>)
    requires forall k :: 0 <= k < |lines| ==> ':' !in lines[k]
    requires Compiled(lines) != []
    ensures Split(Join(Compiled(lines), ":"), ':') == Compiled(lines)
  {
    ItemsWithoutSeparator(lines);
    SplitJoin(Compiled(lines), ':');
  }

  /** The three escape markers the version text may carry. */
  const ResetMarker: string := "\\0m"
  const RedMarker: string := "\\1;31m"
  const BlueUnderlineMarker: string := "\\1;4;34m"

  /** `strip_codes`: removes every reset marker, then every red marker, then
      every blue-underline marker. */
  function StripCodes(input: string): (r: string)
    ensures |r| <= |input|
  {
    RemoveAll(RemoveAll(RemoveAll(input, ResetMarker), RedMarker), BlueUnderlineMarker)
  }

  /** A string in which no marker occurs is returned unchanged. */
  lemma StripCodesLeavesPlainText(s: string)
    requires !Occurs(ResetMarker, s) && !Occurs(RedMarker, s) && !Occurs(BlueUnderlineMarker, s)
    ensures StripCodes(s) == s
  {
    RemoveAllAbsent(s, ResetMarker);
    RemoveAllAbsent(s, RedMarker);
    RemoveAllAbsent(s, BlueUnderlineMarker);
  }

  /** One of the three markers `strip_codes` removes. */
  predicate IsMarker(m: string) {
    m == ResetMarker || m == RedMarker || m == BlueUnderlineMarker
  }

  /** A text made of pieces, each a marker or a backslash-free text. */
  predicate MarkedUp(pieces: seq<string>) {
    forall i :: 0 <= i < |pieces| ==> IsMarker(pieces[i]) || '\\' !in pieces[i]
  }

  /** The pieces laid end to end. */
  function Flat(pieces: seq<string>): string {
    if pieces == [] then [] else pieces[0] + Flat(pieces[1..])
  }

  /** The pieces other than `pat`, in order. */
  function Without(pieces: seq<string>, pat: string): (r: seq<string>)
    ensures forall i :: 0 <= i < |r| ==> r[i] != pat
    ensures forall i :: 0 <= i < |r| ==> r[i] in pieces
  {
    if pieces == [] then []
    else (if pieces[0] == pat then [] else [pieces[0]]) + Without(pieces[1..], pat)
  }

  /** The text pieces, without the markers, in order. */
  function Plain(pieces: seq<string>): (r: seq<string>)
    ensures forall i :: 0 <= i < |r| ==> !IsMarker(r[i]) && r[i] in pieces
  {
    if pieces == [] then []
    else (if IsMarker(pieces[0]) then [] else [pieces[0]]) + Plain(pieces[1..])
  }

  /** The text of one piece followed by the rest. */
  lemma FlatCons(x: string, pieces: seq<string>)
    ensures Flat([x] + pieces) == x + Flat(pieces)
  {
    var ps := [x] + pieces;
    assert ps[0] == x && ps[1..] == pieces;
  }

  /** The text pieces of one piece followed by the rest. */
  lemma PlainCons(x: string, pieces: seq<string>)
    ensures Plain([x] + pieces) == (if IsMarker(x) then [] else [x]) + Plain(pieces)
  {
    var ps := [x] + pieces;
    assert ps[0] == x && ps[1..] == pieces;
  }

  /** A marker is a backslash followed by backslash-free text. */
  lemma MarkerShape(m: string)
    requires IsMarker(m)
    ensures |m| >= 3 && m[0] == '\\' && '\\' !in m[1..]
  {
  }

  /** Two different markers differ within the shorter of them, so neither
      starts a text that begins with the other. */
  lemma MarkersDiffer(m: string, pat: string, b: string)
    requires IsMarker(m) && IsMarker(pat) && m != pat
    ensures !StartsWith(m + b, pat)
  {
    var k := if m[1] != pat[1] then 1 else 3;
    assert (m + b)[k] == m[k] != pat[k];
    if |pat| <= |m + b| {
      assert (m + b)[..|pat|][k] == (m + b)[k];
    }
  }

  /** The pass for `pat` keeps a different marker in front of a text and
      goes on after it. */
  lemma MarkerStays(m: string, b: string, pat: string)
    requires IsMarker(m) && IsMarker(pat) && m != pat
    ensures RemoveAll(m + b, pat) == m + RemoveAll(b, pat)
  {
    var mb := m + b;
    MarkersDiffer(m, pat, b);
    MarkerShape(m);
    MarkerShape(pat);
    assert mb[0] == m[0] && mb[1..] == m[1..] + b;
    RemoveAllKeep(mb, pat);
    RemoveAllKeepsPlainPrefix(m[1..], b, pat);
    AppendAssoc([m[0]], m[1..], RemoveAll(b, pat));
    assert [m[0]] + m[1..] == m;
  }

  /** The piece in front is cut out when it is `pat` and kept otherwise. */
  lemma PassStep(x: string, rest: string, pat: string)
    requires IsMarker(pat) && (IsMarker(x) || '\\' !in x)
    ensures RemoveAll(x + rest, pat) == (if x == pat then [] else x) + RemoveAll(rest, pat)
  {
    if x == pat {
      RemoveAllCut(pat, rest);
      assert [] + RemoveAll(rest, pat) == RemoveAll(rest, pat);
    } else if IsMarker(x) {
      MarkerStays(x, rest, pat);
    } else {
      RemoveAllKeepsPlainPrefix(x, rest, pat);
    }
  }

  /** The pass for one marker removes exactly the pieces that are that
      marker, since no marker starts inside another piece or across two. */
  lemma {:induction false} PassRemoves(pieces: seq<string>, pat: string)
    requires IsMarker(pat) && MarkedUp(pieces)
    ensures MarkedUp(Without(pieces, pat))
    ensures RemoveAll(Flat(pieces), pat) == Flat(Without(pieces, pat))
    decreases |pieces|
  {
    if pieces != [] {
      var x := pieces[0];
      var rest := pieces[1..];
      assert MarkedUp(rest) by {
        assert forall i :: 0 <= i < |rest| ==> rest[i] == pieces[i + 1];
      }
      PassRemoves(rest, pat);
      PassStep(x, Flat(rest), pat);
      if x != pat {
        FlatCons(x, Without(rest, pat));
      } else {
        assert Without(pieces, pat) == Without(rest, pat);
      }
    }
  }

  /** Removing the three markers one after another leaves the text pieces. */
  lemma {:induction false} WithoutAllMarkers(pieces: seq<string>)
    ensures Without(Without(Without(pieces, ResetMarker), RedMarker), BlueUnderlineMarker) == Plain(pieces)
    decreases |pieces|
  {
    if pieces != [] {
      var x := pieces[0];
      var rest := pieces[1..];
      WithoutAllMarkers(rest);
      var w1 := Without(pieces, ResetMarker);
      var r1 := Without(rest, ResetMarker);
      var r2 := Without(r1, RedMarker);
      if !IsMarker(x) {
        assert w1 == [x] + r1 && w1[0] == x && w1[1..] == r1;
        var w2 := Without(w1, RedMarker);
        assert w2 == [x] + r2 && w2[0] == x && w2[1..] == r2;
      } else if x == ResetMarker {
        assert w1 == r1;
      } else {
        assert w1 == [x] + r1 && w1[0] == x && w1[1..] == r1;
        if x == RedMarker {
          assert Without(w1, RedMarker) == r2;
        } else {
          var w2 := Without(w1, RedMarker);
          assert w2 == [x] + r2 && w2[0] == x && w2[1..] == r2;
        }
      }
    }
  }

  /** `strip_codes` of any text made of markers and backslash-free texts
      removes every marker and keeps every text, in order. */
  lemma StripCodesRemovesEveryMarker(pieces: seq<string>)
    requires MarkedUp(pieces)
    ensures StripCodes(Flat(pieces)) == Flat(Plain(pieces))
  {
    PassRemoves(pieces, ResetMarker);
    var p1 := Without(pieces, ResetMarker);
    PassRemoves(p1, RedMarker);
    var p2 := Without(p1, RedMarker);
    PassRemoves(p2, BlueUnderlineMarker);
    WithoutAllMarkers(pieces);
  }

  /** The version text of a release build loses its colour markers and keeps
      the tagline, the version and the url. */
  lemma ReleaseVersionStripped(tagline: string, version: string, url: string)
    requires '\\' !in tagline && '\\' !in version && '\\' !in url
    ensures StripCodes(tagline + "\nv" + version + "\n" + BlueUnderlineMarker + url + ResetMarker)
      == tagline + "\nv" + version + "\n" + url
  {
    var top := tagline + "\nv" + version + "\n";
    assert '\\' !in top;
    ReleasePieces(top, url);
    StripCodesRemovesEveryMarker([top, BlueUnderlineMarker, url, ResetMarker]);
  }

  /** The pieces of a release version text: its top lines, the url and the
      markers around the url. */
  lemma ReleasePieces(top: string, url: string)
    requires '\\' !in top && '\\' !in url
    ensures var pieces := [top, BlueUnderlineMarker, url, ResetMarker];
      && MarkedUp(pieces)
      && Flat(pieces) == top + BlueUnderlineMarker + url + ResetMarker
      && Flat(Plain(pieces)) == top + url
  {
    var pieces := [top, BlueUnderlineMarker, url, ResetMarker];
    assert pieces == [top] + [BlueUnderlineMarker] + [url] + [ResetMarker];
    FlatFour(top, BlueUnderlineMarker, url, ResetMarker);
    assert !IsMarker(top) && !IsMarker(url) by {
      assert '\\' in ResetMarker && '\\' in RedMarker && '\\' in BlueUnderlineMarker;
    }
    PlainFour(top, BlueUnderlineMarker, url, ResetMarker);
    FlatTwo(top, url);
  }

  /** Four pieces laid end to end. */
  lemma FlatFour(a: string, b: string, c: string, d: string)
    ensures Flat([a, b, c, d]) == a + b + c + d
  {
    var ps := [a, b, c, d];
    assert ps[1..] == [b, c, d] && ps[1..][1..] == [c, d] && ps[1..][1..][1..] == [d];
    assert Flat([d]) == d by {
      assert [d][1..] == [];
      assert d + [] == d;
    }
    assert Flat([c, d]) == c + d;
    assert Flat([b, c, d]) == b + (c + d);
    assert Flat(ps) == a + (b + (c + d));
    AppendAssoc(b, c, d);
    AppendAssoc(a, b + c, d);
    AppendAssoc(a, b, c);
  }

  /** Two pieces laid end to end. */
  lemma FlatTwo(a: string, b: string)
    ensures Flat([a, b]) == a + b
  {
    var ps := [a, b];
    assert ps[1..] == [b];
    assert Flat([b]) == b by {
      assert [b][1..] == [];
      assert b + [] == b;
    }
    assert Flat(ps) == a + Flat([b]);
  }

  /** The text pieces of four pieces of which the second and fourth are markers. */
  lemma PlainFour(a: string, m: string, c: string, n: string)
    requires !IsMarker(a) && IsMarker(m) && !IsMarker(c) && IsMarker(n)
    ensures Plain([a, m, c, n]) == [a, c]
  {
    var ps := [a, m, c, n];
    assert ps[1..] == [m, c, n] && ps[1..][1..] == [c, n] && ps[1..][1..][1..] == [n];
    assert [n][1..] == [];
    assert Plain([n]) == [];
    assert Plain([c, n]) == [c];
    assert Plain([m, c, n]) == [c];
  }

  /** The non-standard feature choices of a build, in order: whether git
      support is compiled in. */
  method NonstandardFeaturesString(gitEnabled: bool) returns (r: string)
    ensures r == (if gitEnabled then "+git" else "-git")
  {
    var s: seq<string> := [];
    if gitEnabled {
      s := s + ["+git"];
    } else {
      s := s + ["-git"];
    }
    r := Join(s, ", ");
  }
}
