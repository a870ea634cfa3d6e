/** The string helpers of lib/utils.ts: slug generation, time formatting
    and class-name joining. Characters are Unicode scalar values. */
module Utils {
  import opened JsText
  import opened Store

  // ---------------------------------------------------------------
  // formatTime / formatTimeRange
  // ---------------------------------------------------------------

  /** `timeStr.slice(0, 5)`: "HH:MM:SS" becomes "HH:MM"; shorter input is kept whole. */
  function FormatTime(time: string): (r: string)
    ensures |r| == if |time| < 5 then |time| else 5
    ensures r == time[..|r|]
  {
    if |time| < 5 then time else time[..5]
  }

  /** The separator of a time range: space, en dash, space. */
  const RangeSeparator: string := " \U{2013} "

  function FormatTimeRange(start: string, end: string): string
  {
    FormatTime(start) + RangeSeparator + FormatTime(end)
  }

  /** Formatting an already formatted time changes nothing. */
  lemma FormatTimeIdempotent(time: string)
    ensures FormatTime(FormatTime(time)) == FormatTime(time)
  {
  }

  /** For two times of at least five characters the range is thirteen
      characters: the first "HH:MM", the en-dash separator, the second "HH:MM". */
  lemma FormatTimeRangeLayout(start: string, end: string)
    requires |start| >= 5 && |end| >= 5
    ensures var r := FormatTimeRange(start, end);
      && |r| == 13
      && r[..5] == start[..5]
      && r[5..8] == [' ', '\U{2013}', ' ']
      && r[8..] == end[..5]
  {
  }

  // ---------------------------------------------------------------
  // generateSlug: lower-case, decompose, drop the combining marks,
  // keep [a-z0-9\s-], turn white-space runs into '-', collapse '-' runs,
  // trim.
  // ---------------------------------------------------------------

  /** `toLowerCase` on ASCII and on the Latin-1 capitals U+00C0..U+00DE (but U+00D7). */
  function LowerChar(c: char): (r: char)
    ensures 'A' <= c <= 'Z' ==> 'a' <= r <= 'z'
    ensures ('a' <= c <= 'z' || '0' <= c <= '9' || c == '-' || IsSpace(c)) ==> r == c
  {
    if 'A' <= c <= 'Z' || ('\U{00C0}' <= c <= '\U{00DE}' && c != '\U{00D7}') then (c as int + 32) as char
    else c
  }

  function ToLower(s: string): (r: string)
    ensures |r| == |s|
  {
    seq(|s|, i requires 0 <= i < |s| => LowerChar(s[i]))
  }

  predicate IsCombiningMark(c: char)
  {
    0x300 <= c as int <= 0x36F
  }

  /** Grave, acute, circumflex, tilde, diaeresis and ring above, in that order. */
  const MarksOfA: seq<char> := ['\U{0300}', '\U{0301}', '\U{0302}', '\U{0303}', '\U{0308}', '\U{030A}']
  /** Grave, acute, circumflex, tilde and diaeresis. */
  const MarksOfO: seq<char> := ['\U{0300}', '\U{0301}', '\U{0302}', '\U{0303}', '\U{0308}']
  /** Grave, acute, circumflex and diaeresis (the marks of e, i and u). */
  const MarksOfEIU: seq<char> := ['\U{0300}', '\U{0301}', '\U{0302}', '\U{0308}']

  /** Canonical decomposition (NFD) of the Latin-1 lower-case letters with
      diacritics; every other character is left as it is. */
  function Decompose(c: char): (r: string)
    ensures |r| >= 1
    ensures forall i :: 1 <= i < |r| ==> IsCombiningMark(r[i])
    ensures |r| > 1 ==> 'a' <= r[0] <= 'z'
    ensures c <= '\U{007F}' ==> r == [c]
  {
    var n := c as int;
    if 0xE0 <= n <= 0xE5 then ['a', MarksOfA[n - 0xE0]]
    else if n == 0xE7 then ['c', '\U{0327}']
    else if 0xE8 <= n <= 0xEB then ['e', MarksOfEIU[n - 0xE8]]
    else if 0xEC <= n <= 0xEF then ['i', MarksOfEIU[n - 0xEC]]
    else if n == 0xF1 then ['n', '\U{0303}']
    else if 0xF2 <= n <= 0xF6 then ['o', MarksOfO[n - 0xF2]]
    else if 0xF9 <= n <= 0xFC then ['u', MarksOfEIU[n - 0xF9]]
    else if n == 0xFD then ['y', '\U{0301}']
    else if n == 0xFF then ['y', '\U{0308}']
    else [c]
  }

  function Nfd(s: string): string
  {
    if s == [] then [] else Decompose(s[0]) + Nfd(s[1..])
  }

  /** `replace(/[̀-ͯ]/g, '')`. */
  function StripMarks(s: string): string
  {
    Filter(s, (c: char) => !IsCombiningMark(c))
  }

  predicate IsSlugChar(c: char)
  {
    'a' <= c <= 'z' || '0' <= c <= '9' || IsSpace(c) || c == '-'
  }

  /** `replace(/[^a-z0-9\s-]/g, '')`. */
  function KeepSlugChars(s: string): string
  {
    Filter(s, IsSlugChar)
  }

  predicate IsDash(c: char)
  {
    c == '-'
  }

  /** `replace(/X+/g, '-')` for the character class `inRun`: every maximal
      run of such characters becomes one '-'. The first character of the
      result tells whether the input started with a run. */
  function ReplaceRuns(s: string, inRun: char -> bool): (r: string)
    ensures |r| <= |s|
    ensures s != [] ==> r != [] && r[0] == if inRun(s[0]) then '-' else s[0]
  {
    if s == [] then []
    else if inRun(s[0]) && |s| > 1 && inRun(s[1]) then ReplaceRuns(s[1..], inRun)
    else (if inRun(s[0]) then ['-'] else [s[0]]) + ReplaceRuns(s[1..], inRun)
  }

  function GenerateSlug(name: string): string
  {
    var kept := KeepSlugChars(StripMarks(Nfd(ToLower(name))));
    Trim(ReplaceRuns(ReplaceRuns(kept, IsSpace), IsDash))
  }

  predicate NoDoubleDash(s: string)
  {
    forall i :: 0 <= i < |s| - 1 ==> !(s[i] == '-' && s[i + 1] == '-')
  }

  /** A slug: only a-z, 0-9 and '-', and never "--". */
  predicate IsSlug(s: string)
  {
    && (forall c :: c in s ==> 'a' <= c <= 'z' || '0' <= c <= '9' || c == '-')
    && NoDoubleDash(s)
  }

  /** Replacing runs writes only '-' and characters of the input outside the class. */
  lemma {:induction false} ReplaceRunsChars(s: string, inRun: char -> bool)
    ensures forall c :: c in ReplaceRuns(s, inRun) ==> c == '-' || (c in s && !inRun(c))
    decreases |s|
  {
    if s != [] {
      ReplaceRunsChars(s[1..], inRun);
      assert forall c :: c in s[1..] ==> c in s;
    }
  }

  /** After collapsing '-' runs no two dashes are adjacent. */
  lemma {:induction false} CollapsedDashes(s: string)
    ensures NoDoubleDash(ReplaceRuns(s, IsDash))
    decreases |s|
  {
    if s != [] {
      CollapsedDashes(s[1..]);
      var rest := ReplaceRuns(s[1..], IsDash);
      if !(IsDash(s[0]) && |s| > 1 && IsDash(s[1])) {
        var r := ReplaceRuns(s, IsDash);
        var head := if IsDash(s[0]) then '-' else s[0];
        assert r == [head] + rest;
        forall i | 0 <= i < |r| - 1
          ensures !(r[i] == '-' && r[i + 1] == '-')
        {
          if i > 0 {
            assert r[i] == rest[i - 1] && r[i + 1] == rest[i];
          }
        }
      }
    }
  }

  /** A string without characters of the class is left as it is. */
  lemma {:induction false} ReplaceRunsNone(s: string, inRun: char -> bool)
    requires forall c :: c in s ==> !inRun(c)
    ensures ReplaceRuns(s, inRun) == s
    decreases |s|
  {
    if s != [] {
      assert forall c :: c in s[1..] ==> c in s;
      ReplaceRunsNone(s[1..], inRun);
    }
  }

  /** A string with no "--" is left as it is by the dash collapse. */
  lemma {:induction false} ReplaceDashRunsNone(s: string)
    requires NoDoubleDash(s)
    ensures ReplaceRuns(s, IsDash) == s
    decreases |s|
  {
    if s != [] {
      assert NoDoubleDash(s[1..]) by {
        forall i | 0 <= i < |s[1..]| - 1
          ensures !(s[1..][i] == '-' && s[1..][i + 1] == '-')
        {
          assert s[1..][i] == s[i + 1] && s[1..][i + 1] == s[i + 2];
        }
      }
      ReplaceDashRunsNone(s[1..]);
    }
  }

  /** Trimming a string without white space changes nothing. */
  lemma TrimNoSpace(s: string)
    requires forall c :: c in s ==> !IsSpace(c)
    ensures Trim(s) == s
  {
    assert TrimStart(s) == s;
    assert TrimEnd(s) == s;
  }

  /** Every output of generateSlug is a slug, whatever the input. */
  lemma GenerateSlugIsSlug(name: string)
    ensures IsSlug(GenerateSlug(name))
  {
    var kept := KeepSlugChars(StripMarks(Nfd(ToLower(name))));
    var spaced := ReplaceRuns(kept, IsSpace);
    var dashed := ReplaceRuns(spaced, IsDash);
    ReplaceRunsChars(kept, IsSpace);
    ReplaceRunsChars(spaced, IsDash);
    assert forall c :: c in dashed ==> 'a' <= c <= 'z' || '0' <= c <= '9' || c == '-';
    TrimNoSpace(dashed);
    CollapsedDashes(spaced);
  }

  /** Nfd leaves ASCII text as it is. */
  lemma {:induction false} NfdAscii(s: string)
    requires forall c :: c in s ==> c <= '\U{007F}'
    ensures Nfd(s) == s
    decreases |s|
  {
    if s != [] {
      assert forall c :: c in s[1..] ==> c in s;
      NfdAscii(s[1..]);
      assert s[0] in s;
      assert s == [s[0]] + s[1..];
    }
  }

  /** A slug is its own slug; in particular generateSlug is idempotent. */
  lemma SlugFixedPoint(s: string)
    requires IsSlug(s)
    ensures GenerateSlug(s) == s
  {
    forall i | 0 <= i < |s|
      ensures ToLower(s)[i] == s[i]
    {
      assert s[i] in s;
    }
    assert ToLower(s) == s;
    NfdAscii(s);
    FilterKeepsAll(s, (c: char) => !IsCombiningMark(c));
    FilterKeepsAll(s, IsSlugChar);
    ReplaceRunsNone(s, IsSpace);
    ReplaceDashRunsNone(s);
    TrimNoSpace(s);
  }

  lemma GenerateSlugIdempotent(name: string)
    ensures GenerateSlug(GenerateSlug(name)) == GenerateSlug(name)
  {
    GenerateSlugIsSlug(name);
    SlugFixedPoint(GenerateSlug(name));
  }

  // ---------------------------------------------------------------
  // cn: `classes.filter(Boolean).join(' ')`
  // ---------------------------------------------------------------

  /** An argument of cn: a string, undefined, null or false. */
  datatype ClassValue = Str(text: string) | Undefined | Null | False

  predicate Truthy(v: ClassValue)
  {
    v.Str? && v.text != []
  }

  /** `filter(Boolean)`, keeping the strings. */
  function TruthyNames(classes: seq<ClassValue>): (r: seq<string>)
    ensures forall t :: t in r ==> t != []
    ensures r == [] <==> forall i :: 0 <= i < |classes| ==> !Truthy(classes[i])
  {
    if classes == [] then []
    else (if Truthy(classes[0]) then [classes[0].text] else []) + TruthyNames(classes[1..])
  }

  /** `Array.prototype.join`. */
  function Join(parts: seq<string>, sep: string): string
  {
    if parts == [] then []
    else if |parts| == 1 then parts[0]
    else parts[0] + sep + Join(parts[1..], sep)
  }

  function Cn(classes: seq<ClassValue>): string
  {
    Join(TruthyNames(classes), " ")
  }

  /** Joining non-empty parts gives "" exactly when there are no parts. */
  lemma {:induction false} JoinEmpty(parts: seq<string>, sep: string)
    requires forall t :: t in parts ==> t != []
    ensures Join(parts, sep) == [] <==> parts == []
  {
    if parts != [] {
      assert parts[0] in parts;
    }
  }

  /** Join splits over concatenation, with one separator at the seam when both sides are non-empty. */
  lemma {:induction false} JoinAppend(a: seq<string>, b: seq<string>, sep: string)
    ensures Join(a + b, sep) == Join(a, sep) + (if a != [] && b != [] then sep else []) + Join(b, sep)
    decreases |a|
  {
    if a == [] {
      assert a + b == b;
    } else if |a| == 1 {
      if b != [] {
        assert (a + b)[1..] == b;
      }
    } else {
      assert (a + b)[1..] == a[1..] + b;
      JoinAppend(a[1..], b, sep);
    }
  }

  lemma {:induction false} TruthyNamesAppend(a: seq<ClassValue>, b: seq<ClassValue>)
    ensures TruthyNames(a + b) == TruthyNames(a) + TruthyNames(b)
    decreases |a|
  {
    if a == [] {
      assert a + b == b;
    } else {
      var head := if Truthy(a[0]) then [a[0].text] else [];
      assert (a + b)[0] == a[0];
      assert (a + b)[1..] == a[1..] + b;
      calc {
        TruthyNames(a + b);
        head + TruthyNames(a[1..] + b);
        { TruthyNamesAppend(a[1..], b); }
        head + (TruthyNames(a[1..]) + TruthyNames(b));
        (head + TruthyNames(a[1..])) + TruthyNames(b);
        TruthyNames(a) + TruthyNames(b);
      }
    }
  }

  /** cn is "" exactly when no argument is a non-empty string. */
  lemma CnEmpty(classes: seq<ClassValue>)
    ensures Cn(classes) == [] <==> forall i :: 0 <= i < |classes| ==> !Truthy(classes[i])
  {
    JoinEmpty(TruthyNames(classes), " ");
  }

  /** cn of two argument lists is the two results joined by one space,
      or whichever one is non-empty. */
  lemma CnAppend(a: seq<ClassValue>, b: seq<ClassValue>)
    ensures Cn(a + b) == Cn(a) + (if Cn(a) != [] && Cn(b) != [] then " " else []) + Cn(b)
  {
    TruthyNamesAppend(a, b);
    JoinAppend(TruthyNames(a), TruthyNames(b), " ");
    JoinEmpty(TruthyNames(a), " ");
    JoinEmpty(TruthyNames(b), " ");
  }

  /** undefined, null, false and "" contribute nothing. */
  lemma CnSkipsFalsy(v: ClassValue, classes: seq<ClassValue>)
    requires !Truthy(v)
    ensures Cn([v] + classes) == Cn(classes)
  {
    var vs := [v] + classes;
    assert vs[0] == v && vs[1..] == classes;
    assert TruthyNames(vs) == [] + TruthyNames(classes) == TruthyNames(classes);
  }
}
