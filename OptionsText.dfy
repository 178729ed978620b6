/** The form builder's options editor (examples/DragDropFormBuilder.tsx):
    a choice list shown as text, one `value|label` line per option, and
    parsed back from whatever text the user types. */
module OptionsText {
  import opened Json
  import opened Schema
  import opened Lists

  /** The characters `String.prototype.trim` removes: ECMAScript white space
      and line terminators. */
  predicate IsSpace(c: char) {
    || c == '\t' || c == '\n' || c == '\U{000B}' || c == '\U{000C}' || c == '\r' || c == ' '
    || c == '\U{00A0}' || c == '\U{1680}' || ('\U{2000}' <= c <= '\U{200A}')
    || c == '\U{2028}' || c == '\U{2029}' || c == '\U{202F}' || c == '\U{205F}'
    || c == '\U{3000}' || c == '\U{FEFF}'
  }

  /** Neither end of `s` is white space. */
  predicate Trimmed(s: string) {
    |s| == 0 || (!IsSpace(s[0]) && !IsSpace(s[|s| - 1]))
  }

  function TrimStart(s: string): (r: string)
    ensures |r| <= |s| && r == s[|s| - |r|..]
    ensures |r| > 0 ==> !IsSpace(r[0])
    ensures (|s| == 0 || !IsSpace(s[0])) ==> r == s
    decreases |s|
  {
    if |s| > 0 && IsSpace(s[0]) then TrimStart(s[1..]) else s
  }

  function TrimEnd(s: string): (r: string)
    ensures |r| <= |s| && r == s[..|r|]
    ensures |r| > 0 ==> !IsSpace(r[|r| - 1])
    ensures (|s| == 0 || !IsSpace(s[|s| - 1])) ==> r == s
    decreases |s|
  {
    if |s| > 0 && IsSpace(s[|s| - 1]) then TrimEnd(s[..|s| - 1]) else s
  }

  /** `s.trim()`: the longest slice of `s` with no white space at either end. */
  function Trim(s: string): (r: string)
    ensures Trimmed(r)
    ensures forall c :: c in r ==> c in s
    ensures Trimmed(s) ==> r == s
  {
    var t := TrimStart(s);
    var r := TrimEnd(t);
    assert |r| > 0 ==> r[0] == t[0];
    assert forall c :: c in r ==> c in t by {
      forall c | c in r
        ensures c in t
      {
        var i :| 0 <= i < |r| && r[i] == c;
        assert t[i] == c;
      }
    }
    assert forall c :: c in t ==> c in s by {
      forall c | c in t
        ensures c in s
      {
        var i :| 0 <= i < |t| && t[i] == c;
        assert s[|s| - |t| + i] == c;
      }
    }
    r
  }

  /** `s.split(sep)`: the pieces between separators, always at least one. */
  function Split(s: string, sep: char): (r: seq<string>)
    ensures |r| >= 1
    ensures forall i :: 0 <= i < |r| ==> sep !in r[i]
    decreases |s|
  {
    if |s| == 0 then [""]
    else
      var rest := Split(s[1..], sep);
      if s[0] == sep then [""] + rest
      else
        assert forall i :: 1 <= i < |rest| ==> sep !in rest[i];
        [[s[0]] + rest[0]] + rest[1..]
  }

  /** `parts.join(sep)` */
  function Join(parts: seq<string>, sep: char): string
    decreases |parts|
  {
    if |parts| == 0 then ""
    else if |parts| == 1 then parts[0]
    else parts[0] + [sep] + Join(parts[1..], sep)
  }

  lemma {:induction false} SplitNoSeparator(s: string, sep: char)
    requires sep !in s
    ensures Split(s, sep) == [s]
    decreases |s|
  {
    if |s| > 0 {
      SplitNoSeparator(s[1..], sep);
      assert [s[0]] + s[1..] == s;
    }
  }

  lemma {:induction false} SplitAtSeparator(a: string, b: string, sep: char)
    requires sep !in a
    ensures Split(a + [sep] + b, sep) == [a] + Split(b, sep)
    decreases |a|
  {
    var s := a + [sep] + b;
    if |a| == 0 {
      assert s[0] == sep && s[1..] == b;
    } else {
      assert s[0] == a[0] && s[1..] == a[1..] + [sep] + b;
      SplitAtSeparator(a[1..], b, sep);
      assert [a[0]] + a[1..] == a;
    }
  }

  /** Splitting a join on a separator that no part contains gives the parts back. */
  lemma {:induction false} SplitJoin(parts: seq<string>, sep: char)
    requires |parts| >= 1
    requires forall i :: 0 <= i < |parts| ==> sep !in parts[i]
    ensures Split(Join(parts, sep), sep) == parts
    decreases |parts|
  {
    if |parts| == 1 {
      SplitNoSeparator(parts[0], sep);
    } else {
      SplitJoin(parts[1..], sep);
      SplitAtSeparator(parts[0], Join(parts[1..], sep), sep);
      assert [parts[0]] + parts[1..] == parts;
    }
  }

  /** One line: `[value, label] = line.split('|')`; the value trimmed; the
      label trimmed, falling back to the value when missing or empty;
      further segments ignored. */
  function ParseLine(line: string): (o: SelectOption)
    ensures Trimmed(o.value) && Trimmed(o.caption)
    ensures '|' !in o.value && '|' !in o.caption
    ensures '\n' !in line ==> '\n' !in o.value && '\n' !in o.caption
    ensures o.caption == "" ==> o.value == ""
  {
    var segments := Split(line, '|');
    var value := Trim(segments[0]);
    var second := if |segments| > 1 then Trim(segments[1]) else "";
    SplitSegmentChars(line, '|', 0);
    assert |segments| > 1 && '\n' !in line ==> '\n' !in segments[1] by {
      if |segments| > 1 {
        SplitSegmentChars(line, '|', 1);
      }
    }
    SelectOption(value, if second != "" then second else value)
  }

  /** Every character of a segment comes from the split text. */
  lemma {:induction false} SplitSegmentChars(s: string, sep: char, i: nat)
    requires i < |Split(s, sep)|
    ensures forall c :: c !in s ==> c !in Split(s, sep)[i]
    decreases |s|
  {
    if |s| > 0 {
      var rest := Split(s[1..], sep);
      if s[0] == sep {
        if i > 0 {
          SplitSegmentChars(s[1..], sep, i - 1);
        }
      } else if i == 0 {
        SplitSegmentChars(s[1..], sep, 0);
      } else {
        SplitSegmentChars(s[1..], sep, i);
      }
    }
  }

  /** `line.trim()` is truthy: the line is kept. */
  predicate NotBlank(line: string) {
    Trim(line) != ""
  }

  /** The options editor's change handler: the text split into lines, blank
      lines dropped, the rest parsed in order. Every parsed choice is well formed. */
  function ParseOptions(text: string): (r: seq<SelectOption>)
    ensures forall j :: 0 <= j < |r| ==> WellFormed(r[j])
  {
    var lines := Split(text, '\n');
    var r := KeepMap(lines, NotBlank, ParseLine);
    assert forall j :: 0 <= j < |r| ==> WellFormed(r[j]) by {
      forall j | 0 <= j < |r|
        ensures WellFormed(r[j])
      {
        KeepMapImage(lines, NotBlank, ParseLine, j);
      }
    }
    r
  }

  /** A choice that survives the text form unchanged: both parts trimmed,
      free of `|` and line breaks, and a label unless the value is empty too. */
  predicate WellFormed(o: SelectOption) {
    && Trimmed(o.value) && Trimmed(o.caption)
    && '|' !in o.value && '|' !in o.caption
    && '\n' !in o.value && '\n' !in o.caption
    && (o.caption != "" || o.value == "")
  }

  /** `${opt.value}|${opt.label}` */
  function OptionLine(o: SelectOption): string {
    o.value + "|" + o.caption
  }

  function OptionLines(options: seq<SelectOption>): (r: seq<string>)
    ensures |r| == |options|
    ensures forall i :: 0 <= i < |r| ==> r[i] == OptionLine(options[i])
  {
    seq(|options|, i requires 0 <= i < |options| => OptionLine(options[i]))
  }

  /** The text shown for a field's choices: one line per choice joined with
      line breaks, or `''` when the field has none. */
  function SerialiseOptions(options: Option<seq<SelectOption>>): string {
    if options.None? then "" else Join(OptionLines(options.value), '\n')
  }

  lemma ParseOptionLine(o: SelectOption)
    requires WellFormed(o)
    ensures Trim(OptionLine(o)) != ""
    ensures ParseLine(OptionLine(o)) == o
  {
    var line := OptionLine(o);
    assert line == o.value + ['|'] + o.caption;
    SplitAtSeparator(o.value, o.caption, '|');
    SplitNoSeparator(o.caption, '|');
    assert Split(line, '|') == [o.value, o.caption];
    assert line[|o.value|] == '|';
    TrimKeepsNonSpace(line, |o.value|);
  }

  lemma {:induction false} TrimStartKeepsNonSpace(s: string, k: nat)
    requires k < |s| && !IsSpace(s[k])
    ensures |TrimStart(s)| > |s| - 1 - k
    decreases |s|
  {
    if IsSpace(s[0]) {
      TrimStartKeepsNonSpace(s[1..], k - 1);
    }
  }

  lemma {:induction false} TrimEndKeepsNonSpace(s: string, k: nat)
    requires k < |s| && !IsSpace(s[k])
    ensures |TrimEnd(s)| > k
    decreases |s|
  {
    if IsSpace(s[|s| - 1]) {
      TrimEndKeepsNonSpace(s[..|s| - 1], k);
    }
  }

  lemma TrimKeepsNonSpace(s: string, k: nat)
    requires k < |s| && !IsSpace(s[k])
    ensures Trim(s) != ""
  {
    var t := TrimStart(s);
    TrimStartKeepsNonSpace(s, k);
    var k' := k - (|s| - |t|);
    assert t[k'] == s[k];
    TrimEndKeepsNonSpace(t, k');
  }

  /** The lines of well-formed options parse back to them. */
  lemma ParseOptionLines(options: seq<SelectOption>)
    requires forall i :: 0 <= i < |options| ==> WellFormed(options[i])
    ensures KeepMap(OptionLines(options), NotBlank, ParseLine) == options
  {
    var lines := OptionLines(options);
    forall i | 0 <= i < |lines|
      ensures NotBlank(lines[i]) && ParseLine(lines[i]) == options[i]
    {
      ParseOptionLine(options[i]);
    }
    KeepMapAllKept(lines, NotBlank, ParseLine, options);
  }

  /** Showing well-formed choices as text and parsing that text gives the choices back. */
  lemma ParseSerialise(options: seq<SelectOption>)
    requires forall i :: 0 <= i < |options| ==> WellFormed(options[i])
    ensures ParseOptions(SerialiseOptions(Some(options))) == options
  {
    var lines := OptionLines(options);
    if |options| == 0 {
      assert SerialiseOptions(Some(options)) == "";
    } else {
      forall i | 0 <= i < |lines|
        ensures '\n' !in lines[i]
      {
        assert lines[i] == options[i].value + ['|'] + options[i].caption;
      }
      SplitJoin(lines, '\n');
      ParseOptionLines(options);
    }
  }

  /** Whatever the user typed, re-showing the parsed choices and parsing
      again changes nothing: the text form is stable after one edit. */
  lemma ParseIsStable(text: string)
    ensures ParseOptions(SerialiseOptions(Some(ParseOptions(text)))) == ParseOptions(text)
  {
    ParseSerialise(ParseOptions(text));
  }

  /** A separator at the end of the text adds one empty last segment. */
  lemma {:induction false} SplitTrailingSeparator(s: string, sep: char)
    ensures Split(s + [sep], sep) == Split(s, sep) + [""]
    decreases |s|
  {
    if |s| == 0 {
      assert [sep][1..] == [];
    } else {
      assert (s + [sep])[0] == s[0];
      assert (s + [sep])[1..] == s[1..] + [sep];
      SplitTrailingSeparator(s[1..], sep);
    }
  }

  /** A line break at the end of the options text changes nothing in the parse. */
  lemma ParseIgnoresTrailingNewline(text: string)
    ensures ParseOptions(text + "\n") == ParseOptions(text)
  {
    SplitTrailingSeparator(text, '\n');
    KeepMapAppend(Split(text, '\n'), [""], NotBlank, ParseLine);
    assert !NotBlank("");
    assert KeepMap([""], NotBlank, ParseLine) == [];
  }

  /** The text of the options box after `text` is typed into it, as written:
      the box is controlled by the draft's choices, so it shows the typed
      text parsed and serialised again. */
  function ShownAfterTyping(text: string): string {
    SerialiseOptions(Some(ParseOptions(text)))
  }

  /** Once shown, the text stays put: typing nothing new changes nothing. */
  lemma ShownIsStable(text: string)
    ensures ShownAfterTyping(ShownAfterTyping(text)) == ShownAfterTyping(text)
  {
    ParseIsStable(text);
  }

  /** As written, the line break that would start a second option vanishes
      as soon as it is typed: the line of any well-formed option (`a|A`, say)
      followed by Enter shows the line alone again. */
  lemma EnterAtEndDisappears(o: SelectOption)
    requires WellFormed(o)
    ensures ShownAfterTyping(OptionLine(o) + "\n") == OptionLine(o)
    ensures ShownAfterTyping(OptionLine(o) + "\n") != OptionLine(o) + "\n"
  {
    var line := OptionLine(o);
    assert SerialiseOptions(Some([o])) == line by {
      assert OptionLines([o]) == [line];
    }
    ParseSerialise([o]);
    ParseIgnoresTrailingNewline(line);
    assert |line| != |line + "\n"|;
  }

  const Option1 := SelectOption("option1", "Option 1")
  const Option2 := SelectOption("option2", "Option 2")

  /** Two choices are shown as their two lines around one line break. */
  lemma TwoOptionsText(o1: SelectOption, o2: SelectOption)
    ensures SerialiseOptions(Some([o1, o2])) == OptionLine(o1) + "\n" + OptionLine(o2)
  {
    var lines := OptionLines([o1, o2]);
    assert lines == [OptionLine(o1), OptionLine(o2)];
    assert lines[1..] == [OptionLine(o2)];
    assert Join(lines[1..], '\n') == OptionLine(o2);
    assert Join(lines, '\n') == OptionLine(o1) + ['\n'] + OptionLine(o2);
  }

  lemma PlaceholderText()
    ensures SerialiseOptions(Some([Option1, Option2])) == "option1|Option 1\noption2|Option 2"
  {
    TwoOptionsText(Option1, Option2);
    assert OptionLine(Option1) == "option1|Option 1";
    assert OptionLine(Option2) == "option2|Option 2";
  }

  lemma PlaceholderWellFormed()
    ensures WellFormed(Option1) && WellFormed(Option2)
  {
    assert Option1.value[0] == 'o' && Option1.value[|Option1.value| - 1] == '1';
    assert Option1.caption[0] == 'O' && Option1.caption[|Option1.caption| - 1] == '1';
    assert Option2.value[0] == 'o' && Option2.value[|Option2.value| - 1] == '2';
    assert Option2.caption[0] == 'O' && Option2.caption[|Option2.caption| - 1] == '2';
  }

  /** The placeholder text of the options editor parses to two choices. */
  lemma PlaceholderExample()
    ensures ParseOptions("option1|Option 1\noption2|Option 2") == [Option1, Option2]
  {
    PlaceholderText();
    PlaceholderWellFormed();
    ParseSerialise([Option1, Option2]);
  }
}
