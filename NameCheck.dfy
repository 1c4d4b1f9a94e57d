/** The name validator: whether a file or directory name may be created.
    `CheckChars` screens a string for reserved characters and `CheckName`
    screens a whole name; both answer with an exit code. */
module NameCheck {
  import opened ExitCodes

  /** The characters `CheckChars` refuses. */
  const InvalidChars: string := "\\/:,;*?\"<>|+&~"

  /** The names `CheckName` refuses whatever their case. */
  const Reserved: seq<string> := [
    ".", "..",
    "CON", "PRN", "AUX", "NUL", "CLOCK$",
    "COM0", "COM1", "COM2", "COM3", "COM4",
    "COM5", "COM6", "COM7", "COM8", "COM9",
    "LPT0", "LPT1", "LPT2", "LPT3", "LPT4",
    "LPT5", "LPT6", "LPT7", "LPT8", "LPT9"
  ]

  /** ASCII upper-casing, the folding `lstrcmpi` applies to these names. */
  function Upper(c: char): char
  {
    if 'a' <= c <= 'z' then (c as int - 32) as char else c
  }

  /** `lstrcmpi(a, b) == 0`. */
  predicate EqualsIgnoreCase(a: string, b: string)
  {
    |a| == |b| && forall i :: 0 <= i < |a| ==> Upper(a[i]) == Upper(b[i])
  }

  /** What the error message of `CheckChars` claims it detects. */
  predicate ContainsInvalidChar(s: string)
  {
    exists i :: 0 <= i < |s| && s[i] in InvalidChars
  }

  /** The verdict `CheckChars` reaches. Its loop runs once per character but
      looks up the FIRST character every time round, so only that one counts. */
  function CharsCode(s: string): ExitCode
  {
    if |s| > 0 && s[0] in InvalidChars then InvalidChar else Success
  }

  method CheckChars(s: string) returns (r: ExitCode)
    ensures r == CharsCode(s)
    ensures r == Success || r == InvalidChar
    ensures r == InvalidChar <==> |s| > 0 && s[0] in InvalidChars
    ensures r == InvalidChar ==> ContainsInvalidChar(s)
  {
    var i := 0;
    while i < |s|
      invariant 0 <= i <= |s|
      invariant 0 < i ==> s[0] !in InvalidChars
    {
      if s[0] in InvalidChars {
        return InvalidChar;
      }
      i := i + 1;
    }
    return Success;
  }

  /** A reserved character anywhere after the first one goes unnoticed. */
  lemma CheckCharsMissesLaterChars(c: char, rest: string)
    requires c !in InvalidChars
    ensures CharsCode([c] + rest) == Success
    ensures ContainsInvalidChar(rest) ==> ContainsInvalidChar([c] + rest)
  {
    if ContainsInvalidChar(rest) {
      var i :| 0 <= i < |rest| && rest[i] in InvalidChars;
      assert ([c] + rest)[i + 1] == rest[i];
    }
  }

  /** `CheckChars` as its error message and its loop variable mean it: each
      round looks up the current character `*pch`, so a reserved character
      anywhere in the string is refused. */
  method CheckEveryChar(s: string) returns (r: ExitCode)
    ensures r == Success || r == InvalidChar
    ensures r == InvalidChar <==> ContainsInvalidChar(s)
    ensures (forall j :: 1 <= j < |s| ==> s[j] !in InvalidChars) ==> r == CharsCode(s)
  {
    var i := 0;
    while i < |s|
      invariant 0 <= i <= |s|
      invariant forall j :: 0 <= j < i ==> s[j] !in InvalidChars
    {
      if s[i] in InvalidChars {
        return InvalidChar;
      }
      i := i + 1;
    }
    return Success;
  }

  predicate IsReserved(name: string)
  {
    exists i :: 0 <= i < |Reserved| && EqualsIgnoreCase(name, Reserved[i])
  }

  /** The verdict of `CheckName`: the empty or `$`-terminated check first, then
      the reserved table, and only then `CheckChars`. */
  function NameCode(name: string): ExitCode
  {
    if |name| == 0 || name[|name| - 1] == '$' then InvalidName
    else if IsReserved(name) then InvalidName
    else CharsCode(name)
  }

  method CheckName(name: string) returns (r: ExitCode)
    ensures r == NameCode(name)
  {
    r := Success;
    var len := |name|;
    if len == 0 || name[len - 1] == '$' {
      r := InvalidName;
    } else {
      var i := 0;
      while i < |Reserved|
        invariant 0 <= i <= |Reserved|
        invariant r == Success
        invariant forall j :: 0 <= j < i ==> !EqualsIgnoreCase(name, Reserved[j])
      {
        if EqualsIgnoreCase(name, Reserved[i]) {
          r := InvalidName;
          break;
        }
        i := i + 1;
      }
    }
    if r == Success {
      r := CheckChars(name);
    }
  }

  /** The three outcomes of `CheckName` and the order in which its rules apply. */
  lemma NameCodeOutcomes(name: string)
    ensures NameCode(name) in {Success, InvalidName, InvalidChar}
    ensures (|name| == 0 || name[|name| - 1] == '$') ==> NameCode(name) == InvalidName
    ensures IsReserved(name) ==> NameCode(name) == InvalidName
    ensures NameCode(name) == InvalidName <==>
              |name| == 0 || name[|name| - 1] == '$' || IsReserved(name)
    ensures NameCode(name) != InvalidName ==> NameCode(name) == CharsCode(name)
  {
  }

  /** The table's `CLOCK$` entry can never match: any name equal to it ignoring
      case ends with `$` and is refused by the first rule already. */
  lemma ClockEntryUnreachable(name: string)
    requires |name| > 0 && name[|name| - 1] != '$'
    ensures !EqualsIgnoreCase(name, Reserved[6])
  {
  }

  /** No reserved name is longer than six characters. */
  lemma LongNamesAreNotReserved(name: string)
    requires |name| > 6
    ensures !IsReserved(name)
  {
    assert forall i :: 0 <= i < |Reserved| ==> |Reserved[i]| <= 6;
  }

  /** Device names, dot names and `$`-terminated names are refused. */
  lemma RefusedNameExamples()
    ensures NameCode("") == InvalidName
    ensures NameCode("con") == InvalidName
    ensures NameCode("COM1") == InvalidName
    ensures NameCode("a$") == InvalidName
  {
    assert EqualsIgnoreCase("con", Reserved[2]);
    assert EqualsIgnoreCase("COM1", Reserved[8]);
  }

  /** Ordinary file names are accepted. */
  lemma AcceptedNameExamples()
    ensures NameCode("good_name") == Success
    ensures NameCode("a-b_c.d") == Success
  {
    LongNamesAreNotReserved("good_name");
    LongNamesAreNotReserved("a-b_c.d");
  }

  /** A name with a reserved character after its first one is accepted. */
  lemma InnerSlashAccepted()
    ensures ContainsInvalidChar("ab/cd.txt") && NameCode("ab/cd.txt") == Success
  {
    assert "ab/cd.txt"[2] == '/';
    LongNamesAreNotReserved("ab/cd.txt");
  }
}
