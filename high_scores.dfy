/**
 * The high-score table of the C version. Each line of the scores file is
 * "name;score": the newline is cut off, strtok splits the line at ';', the
 * first token (at most ten characters of it) becomes the name and atoi of
 * the second becomes the score, stored in a uint32_t. The ten records are
 * then sorted by score, highest first, with an in-place insertion sort.
 */
module HighScores {
  import opened Progression

  /** The scores array holds ten records. */
  const CAPACITY := 10

  /** char name[10]. */
  const NAME_LEN := 10

  /** The separator handed to strtok. */
  const DELIM := ';'

  /** A Score record: the name and a uint32_t score. */
  datatype Score = Score(name: string, score: int)

  datatype Option<T> = None | Some(value: T)

  function Min(a: int, b: int): int {
    if a <= b then a else b
  }

  /** The C string held in a buffer: everything before the first NUL. */
  function UpToNul(s: string): (r: string)
    ensures |r| <= |s|
  {
    if s == [] || s[0] == '\0' then [] else [s[0]] + UpToNul(s[1..])
  }

  /** UpToNul is the longest prefix without NUL: it stops at the first NUL or at the end. */
  lemma {:induction false} UpToNulIsCString(s: string)
    ensures UpToNul(s) <= s && '\0' !in UpToNul(s)
    ensures |UpToNul(s)| < |s| ==> s[|UpToNul(s)|] == '\0'
  {
    if s != [] && s[0] != '\0' {
      UpToNulIsCString(s[1..]);
    }
  }

  /** The first position at or after k that is not a delimiter (|s| if there is none). */
  function SkipDelims(s: string, k: nat): (r: nat)
    requires k <= |s|
    ensures k <= r <= |s|
    ensures r < |s| ==> s[r] != DELIM
    decreases |s| - k
  {
    if k == |s| || s[k] != DELIM then k else SkipDelims(s, k + 1)
  }

  /** Everything SkipDelims steps over is a delimiter. */
  lemma {:induction false} SkipDelimsSkipsDelims(s: string, k: nat)
    requires k <= |s|
    ensures forall i :: k <= i < SkipDelims(s, k) ==> s[i] == DELIM
    decreases |s| - k
  {
    if k < |s| && s[k] == DELIM {
      SkipDelimsSkipsDelims(s, k + 1);
    }
  }

  /** The first delimiter at or after k (|s| if there is none). */
  function TokenEnd(s: string, k: nat): (r: nat)
    requires k <= |s|
    ensures k <= r <= |s|
    decreases |s| - k
  {
    if k == |s| || s[k] == DELIM then k else TokenEnd(s, k + 1)
  }

  /** TokenEnd stops at the first delimiter: none before it, one at it unless it is the end. */
  lemma {:induction false} TokenEndStopsAtDelim(s: string, k: nat)
    requires k <= |s|
    ensures forall i :: k <= i < TokenEnd(s, k) ==> s[i] != DELIM
    ensures TokenEnd(s, k) < |s| ==> s[TokenEnd(s, k)] == DELIM
    decreases |s| - k
  {
    if k < |s| && s[k] != DELIM {
      TokenEndStopsAtDelim(s, k + 1);
    }
  }

  /**
   * strtok on the C string s, resuming at position k: the next run of
   * non-delimiters, and where the following call resumes (just past the
   * delimiter that ended the token, which strtok overwrites with NUL).
   * None (strtok's NULL) when only delimiters remain.
   */
  function Strtok(s: string, k: nat): (r: Option<(string, nat)>)
    requires k <= |s|
    ensures r.Some? ==> k < r.value.1 <= |s| && |r.value.0| > 0
  {
    var start := SkipDelims(s, k);
    if start == |s| then None
    else
      var end := TokenEnd(s, start);
      Some((s[start..end], if end < |s| then end + 1 else end))
  }

  /** strtok returns NULL exactly when only delimiters remain, and a token never holds one. */
  lemma StrtokTokens(s: string, k: nat)
    requires k <= |s|
    ensures Strtok(s, k).None? <==> forall i :: k <= i < |s| ==> s[i] == DELIM
    ensures Strtok(s, k).Some? ==> DELIM !in Strtok(s, k).value.0
  {
    var start := SkipDelims(s, k);
    SkipDelimsSkipsDelims(s, k);
    if start < |s| {
      TokenEndStopsAtDelim(s, start);
    }
  }

  /** isspace in the C locale: blank, tab, newline, vertical tab, form feed, carriage return. */
  predicate IsSpace(c: char) {
    c == ' ' || '\t' <= c <= '\r'
  }

  predicate IsDigit(c: char) {
    '0' <= c <= '9'
  }

  predicate AllDigits(d: string) {
    forall i :: 0 <= i < |d| ==> IsDigit(d[i])
  }

  /** The number of white-space characters that start s. */
  function LeadingSpaces(s: string): (n: nat)
    ensures n <= |s|
  {
    if s != [] && IsSpace(s[0]) then 1 + LeadingSpaces(s[1..]) else 0
  }

  /** LeadingSpaces stops at the first character that is not white space. */
  lemma {:induction false} LeadingSpacesStop(s: string)
    ensures forall i :: 0 <= i < LeadingSpaces(s) ==> IsSpace(s[i])
    ensures LeadingSpaces(s) < |s| ==> !IsSpace(s[LeadingSpaces(s)])
  {
    if s != [] && IsSpace(s[0]) {
      LeadingSpacesStop(s[1..]);
    }
  }

  /** The number of digits that start s. */
  function DigitRun(s: string): (n: nat)
    ensures n <= |s|
  {
    if s != [] && IsDigit(s[0]) then 1 + DigitRun(s[1..]) else 0
  }

  /** DigitRun covers digits only and stops at the first character that is not one. */
  lemma {:induction false} DigitRunStops(s: string)
    ensures AllDigits(s[..DigitRun(s)])
    ensures DigitRun(s) < |s| ==> !IsDigit(s[DigitRun(s)])
  {
    if s != [] && IsDigit(s[0]) {
      DigitRunStops(s[1..]);
      var n := DigitRun(s);
      assert forall i :: 1 <= i < n ==> s[..n][i] == s[1..][..n - 1][i - 1];
    }
  }

  /** The value of a string of decimal digits, most significant digit first. */
  function DigitsValue(d: string): int {
    if d == [] then 0 else DigitsValue(d[..|d| - 1]) * 10 + ((d[|d| - 1] as int) - ('0' as int))
  }

  /** A run of digits has a value that is not negative. */
  lemma {:induction false} DigitsValueNotNegative(d: string)
    requires AllDigits(d)
    ensures DigitsValue(d) >= 0
  {
    if d != [] {
      DigitsValueNotNegative(d[..|d| - 1]);
    }
  }

  /**
   * atoi: leading white space is skipped, an optional sign is read, and the
   * digits that follow give the value (0 when there are none).
   */
  function Atoi(s: string): int {
    var t := s[LeadingSpaces(s)..];
    var negative := |t| > 0 && t[0] == '-';
    var u := if |t| > 0 && (t[0] == '-' || t[0] == '+') then t[1..] else t;
    var v: int := DigitsValue(u[..DigitRun(u)]);
    if negative then -v else v
  }

  /**
   * One line as getline returns it, turned into a record: the last
   * character (the newline) is replaced by NUL, the first strtok token
   * gives the name and the second the score. The name keeps at most
   * NAME_LEN characters (memcpy of ten bytes); the score is atoi's value
   * converted to uint32_t. None where the C code would hand strtok's NULL
   * to memcpy or atoi.
   */
  function ParseLine(line: string): (r: Option<Score>)
    requires |line| >= 1
    ensures r.Some? ==> 0 < |r.value.name| <= NAME_LEN && 0 <= r.value.score < U32_MODULUS
  {
    var text := UpToNul(line[..|line| - 1]);
    match Strtok(text, 0)
    case None => None
    case Some((first, next)) =>
      match Strtok(text, next)
      case None => None
      case Some((second, _)) =>
        var name := first[..Min(NAME_LEN, |first|)];
        Some(Score(name, U32(Atoi(second))))
  }

  /** A name the file format can carry: one to ten characters, no ';' and no NUL. */
  predicate ValidName(name: string) {
    0 < |name| <= NAME_LEN && DELIM !in name && '\0' !in name
  }

  function Digit(n: nat): (c: char)
    requires n < 10
    ensures IsDigit(c) && (c as int) - ('0' as int) == n
  {
    (('0' as int) + n) as char
  }

  /** The decimal digits of n, most significant first, as printf's %d writes them. */
  function Decimal(n: nat): (d: string)
    ensures 0 < |d| && AllDigits(d)
  {
    if n < 10 then [Digit(n)] else Decimal(n / 10) + [Digit(n % 10)]
  }

  /** %d of a signed value: a minus sign for a negative one. */
  function Signed(x: int): (d: string)
    ensures 0 < |d|
  {
    if x < 0 then "-" + Decimal(-x) else Decimal(x)
  }

  /** A uint32_t handed to %d is printed as the int32 with the same bits. */
  function AsInt32(x: int): (r: int)
    requires 0 <= x < U32_MODULUS
    ensures -U32_MODULUS / 2 <= r < U32_MODULUS / 2
    ensures U32(r) == x
  {
    if x < U32_MODULUS / 2 then x else x - U32_MODULUS
  }

  /** The line fprintf(fp, "%s;%d\n", name, score) writes for one record. */
  function FormatLine(r: Score): (line: string)
    requires 0 <= r.score < U32_MODULUS
    ensures |line| >= 1 && line[|line| - 1] == '\n'
  {
    r.name + [DELIM] + Signed(AsInt32(r.score)) + "\n"
  }

  /** The digits of n read back give n. */
  lemma {:induction false} DigitsValueOfDecimal(n: nat)
    ensures DigitsValue(Decimal(n)) == n
  {
    if n >= 10 {
      var d := Decimal(n);
      assert d[..|d| - 1] == Decimal(n / 10);
      DigitsValueOfDecimal(n / 10);
    }
  }

  /** A run of digits is read to its end. */
  lemma {:induction false} DigitRunOfDigits(d: string)
    requires AllDigits(d)
    ensures DigitRun(d) == |d|
  {
    if d != [] {
      DigitRunOfDigits(d[1..]);
    }
  }

  /** atoi reads back what %d writes. */
  lemma AtoiOfSigned(x: int)
    ensures Atoi(Signed(x)) == x
  {
    if x < 0 {
      AtoiOfNegative(-x);
    } else {
      AtoiOfDigits(Decimal(x));
      DigitsValueOfDecimal(x);
    }
  }

  /** atoi of a plain run of digits is their value. */
  lemma AtoiOfDigits(d: string)
    requires 0 < |d| && AllDigits(d)
    ensures Atoi(d) == DigitsValue(d)
  {
    DigitRunOfDigits(d);
    assert LeadingSpaces(d) == 0 by {
      assert IsDigit(d[0]);
    }
    assert d[0..] == d;
    assert d[..|d|] == d;
  }

  /** atoi of a minus sign followed by the digits of n is -n. */
  lemma AtoiOfNegative(n: nat)
    requires n > 0
    ensures Atoi("-" + Decimal(n)) == -(n as int)
  {
    var d := Decimal(n);
    var s := "-" + d;
    DigitRunOfDigits(d);
    DigitsValueOfDecimal(n);
    assert LeadingSpaces(s) == 0;
    assert s[0..] == s && s[1..] == d;
    assert d[..|d|] == d;
  }

  /** A name that can be written can be split back off the line. */
  lemma SplitFormatted(name: string, digits: string)
    requires ValidName(name) && 0 < |digits| && DELIM !in digits && '\0' !in digits
    ensures var text := name + [DELIM] + digits;
      UpToNul(text) == text &&
      Strtok(text, 0) == Some((name, |name| + 1)) &&
      Strtok(text, |name| + 1) == Some((digits, |text|))
  {
    var text := name + [DELIM] + digits;
    UpToNulWithoutNul(text);
    assert SkipDelims(text, 0) == 0 by {
      assert text[0] == name[0];
    }
    TokenEndAt(text, 0, |name|);
    assert text[0..|name|] == name;
    assert text[|name| + 1] == digits[0];
    assert SkipDelims(text, |name| + 1) == |name| + 1;
    TokenEndAt(text, |name| + 1, |text|);
    assert text[|name| + 1..|text|] == digits;
  }

  lemma {:induction false} UpToNulWithoutNul(s: string)
    requires '\0' !in s
    ensures UpToNul(s) == s
  {
    if s != [] {
      assert s[0] != '\0';
      assert forall c :: c in s[1..] ==> c in s;
      UpToNulWithoutNul(s[1..]);
    }
  }

  lemma {:induction false} TokenEndAt(s: string, k: nat, e: nat)
    requires k <= e <= |s|
    requires forall i :: k <= i < e ==> s[i] != DELIM
    requires e == |s| || s[e] == DELIM
    ensures TokenEnd(s, k) == e
    decreases e - k
  {
    if k < e {
      TokenEndAt(s, k + 1, e);
    }
  }

  /**
   * The line the writer prints for a record parses back into the same
   * record, for every uint32_t score: what %d prints as negative, atoi
   * reads as negative and the conversion to uint32_t wraps it back.
   */
  lemma ParseFormatLine(r: Score)
    requires ValidName(r.name) && 0 <= r.score < U32_MODULUS
    ensures ParseLine(FormatLine(r)) == Some(r)
  {
    var digits := Signed(AsInt32(r.score));
    var line := FormatLine(r);
    assert line[..|line| - 1] == r.name + [DELIM] + digits;
    SignedHasNoSeparator(AsInt32(r.score));
    SplitFormatted(r.name, digits);
    AtoiOfSigned(AsInt32(r.score));
    assert Min(NAME_LEN, |r.name|) == |r.name|;
    assert r.name[..|r.name|] == r.name;
  }

  /** %d writes neither the separator nor NUL. */
  lemma SignedHasNoSeparator(x: int)
    ensures DELIM !in Signed(x) && '\0' !in Signed(x)
  {
    var d := Signed(x);
    assert forall i :: 0 <= i < |d| ==> d[i] == '-' || IsDigit(d[i]);
  }

  /** The values of a run of options in order, or None as soon as one of them is missing. */
  function AllPresent<T>(opts: seq<Option<T>>): (r: Option<seq<T>>)
    ensures r.Some? ==> |r.value| == |opts|
  {
    if opts == [] then Some([])
    else
      match AllPresent(opts[..|opts| - 1])
      case None => None
      case Some(init) =>
        match opts[|opts| - 1]
        case None => None
        case Some(last) => Some(init + [last])
  }

  /** When every entry is present, value k is entry k's. */
  lemma {:induction false} AllPresentAt<T>(opts: seq<Option<T>>, k: nat)
    requires k < |opts| && AllPresent(opts).Some?
    ensures opts[k] == Some(AllPresent(opts).value[k])
  {
    if k < |opts| - 1 {
      AllPresentAt(opts[..|opts| - 1], k);
    }
  }

  /** One missing entry makes the whole run missing. */
  lemma {:induction false} AllPresentFails<T>(opts: seq<Option<T>>, k: nat)
    requires k < |opts| && opts[k].None?
    ensures AllPresent(opts).None?
  {
    if k < |opts| - 1 {
      AllPresentFails(opts[..|opts| - 1], k);
    }
  }

  /** Entries that each hold the matching value give those values. */
  lemma {:induction false} AllPresentOf<T>(opts: seq<Option<T>>, xs: seq<T>)
    requires |xs| == |opts|
    requires forall k :: 0 <= k < |opts| ==> opts[k] == Some(xs[k])
    ensures AllPresent(opts) == Some(xs)
  {
    if opts != [] {
      AllPresentOf(opts[..|opts| - 1], xs[..|xs| - 1]);
      LastSplit(xs);
    }
  }

  /** A run whose first k entries are not all present is not all present either. */
  lemma {:induction false} AllPresentFailsOnward<T>(opts: seq<Option<T>>, k: nat)
    requires k <= |opts| && AllPresent(opts[..k]).None?
    ensures AllPresent(opts).None?
    decreases |opts| - k
  {
    if k < |opts| {
      assert opts[..k + 1][..k] == opts[..k];
      AllPresentFailsOnward(opts, k + 1);
    } else {
      assert opts[..k] == opts;
    }
  }

  /** One more entry that is present extends the values by it. */
  lemma AllPresentExtend<T>(opts: seq<Option<T>>, i: int, init: seq<T>, last: T)
    requires 0 <= i < |opts| && AllPresent(opts[..i]) == Some(init) && opts[i] == Some(last)
    ensures AllPresent(opts[..i + 1]) == Some(init + [last])
  {
    assert opts[..i + 1][..i] == opts[..i];
  }

  /** A non-empty sequence is its front followed by its last element. */
  lemma LastSplit<T>(s: seq<T>)
    requires s != []
    ensures s == s[..|s| - 1] + [s[|s| - 1]]
  {
  }

  /** What each line splits into: entry k is line k's record, or None. */
  function SplitLines(lines: seq<string>): (r: seq<Option<Score>>)
    requires forall i :: 0 <= i < |lines| ==> |lines[i]| >= 1
    ensures |r| == |lines|
  {
    if lines == [] then [] else SplitLines(lines[..|lines| - 1]) + [ParseLine(lines[|lines| - 1])]
  }

  /** Entry k of SplitLines is what line k splits into. */
  lemma {:induction false} SplitLinesAt(lines: seq<string>, k: nat)
    requires forall i :: 0 <= i < |lines| ==> |lines[i]| >= 1
    requires k < |lines|
    ensures SplitLines(lines)[k] == ParseLine(lines[k])
  {
    if k < |lines| - 1 {
      SplitLinesAt(lines[..|lines| - 1], k);
    }
  }

  /** The records of a run of lines, or None when one of them does not split. */
  function ParseAll(lines: seq<string>): (r: Option<seq<Score>>)
    requires forall i :: 0 <= i < |lines| ==> |lines[i]| >= 1
    ensures r.Some? ==> |r.value| == |lines|
  {
    AllPresent(SplitLines(lines))
  }

  /**
   * A run of lines parses exactly when every one of its lines splits, and
   * then record k is what line k splits into.
   */
  lemma ParseAllSplitsEveryLine(lines: seq<string>)
    requires forall i :: 0 <= i < |lines| ==> |lines[i]| >= 1
    ensures ParseAll(lines).Some? <==> forall k :: 0 <= k < |lines| ==> ParseLine(lines[k]).Some?
    ensures ParseAll(lines).Some? ==>
      forall k :: 0 <= k < |lines| ==> ParseLine(lines[k]) == Some(ParseAll(lines).value[k])
  {
    var opts := LineResults(lines);
    if ParseAll(lines).Some? {
      forall k | 0 <= k < |lines|
        ensures ParseLine(lines[k]) == Some(ParseAll(lines).value[k])
      {
        AllPresentAt(opts, k);
      }
    } else if forall k :: 0 <= k < |lines| ==> ParseLine(lines[k]).Some? {
      var xs := seq(|lines|, k requires 0 <= k < |lines| => ParseLine(lines[k]).value);
      forall k | 0 <= k < |lines|
        ensures opts[k] == Some(xs[k])
      {
        assert opts[k] == ParseLine(lines[k]);
      }
      AllPresentOf(opts, xs);
      assert false;
    }
  }

  /** The parse loop: line i fills scores[i], for as long as the lines split. */
  method LoadScores(lines: seq<string>, scores: array<Score>) returns (ok: bool)
    requires |lines| <= scores.Length == CAPACITY
    requires forall i :: 0 <= i < |lines| ==> |lines[i]| >= 1
    modifies scores
    ensures ok <==> ParseAll(lines).Some?
    ensures ok ==> scores[..] == ParseAll(lines).value + old(scores[|lines|..])
    ensures scores[|lines|..] == old(scores[|lines|..])
  {
    ghost var opts := LineResults(lines);
    var i := 0;
    while i < |lines|
      invariant 0 <= i <= |lines|
      invariant AllPresent(opts[..i]) == Some(scores[..i])
      invariant forall t :: |lines| <= t < scores.Length ==> scores[t] == old(scores[t])
    {
      ok := StoreLine(lines, scores, i, opts);
      if !ok {
        return;
      }
      i := i + 1;
    }
    assert opts[..i] == opts;
    assert scores[..] == scores[..i] + scores[i..];
    return true;
  }

  /**
   * The per-line results ParseAll collects, characterised line by line
   * rather than by their definition.
   */
  lemma LineResults(lines: seq<string>) returns (opts: seq<Option<Score>>)
    requires forall k :: 0 <= k < |lines| ==> |lines[k]| >= 1
    ensures |opts| == |lines| && ParseAll(lines) == AllPresent(opts)
    ensures forall k {:trigger ParseLine(lines[k])} :: 0 <= k < |lines| ==> opts[k] == ParseLine(lines[k])
  {
    opts := SplitLines(lines);
    forall k | 0 <= k < |lines|
      ensures opts[k] == ParseLine(lines[k])
    {
      SplitLinesAt(lines, k);
    }
  }

  /** One pass of the parse loop: line i is split and, when it splits, its record is stored in scores[i]. */
  method StoreLine(lines: seq<string>, scores: array<Score>, i: int, ghost opts: seq<Option<Score>>) returns (ok: bool)
    requires forall k :: 0 <= k < |lines| ==> |lines[k]| >= 1
    requires 0 <= i < |lines| <= scores.Length && |opts| == |lines|
    requires forall k {:trigger ParseLine(lines[k])} :: 0 <= k < |lines| ==> opts[k] == ParseLine(lines[k])
    requires AllPresent(opts[..i]) == Some(scores[..i])
    modifies scores
    ensures ok ==> AllPresent(opts[..i + 1]) == Some(scores[..i + 1])
    ensures !ok ==> AllPresent(opts).None?
    ensures forall t :: i < t < scores.Length ==> scores[t] == old(scores[t])
  {
    var r := ParseLine(lines[i]);
    if r.None? {
      AllPresentFails(opts, i);
      return false;
    }
    ghost var before := scores[..i];
    AllPresentExtend(opts, i, before, r.value);
    scores[i] := r.value;
    assert scores[..i + 1] == before + [r.value];
    return true;
  }

  /** Scores never increase along s. */
  ghost predicate Descending(s: seq<Score>) {
    forall i, j :: 0 <= i < j < |s| ==> s[i].score >= s[j].score
  }

  /**
   * One pass of the outer loop as a value: x is inserted into s behind
   * every record whose score is at least its own, scanning from the end of
   * s as the inner loop does.
   */
  function Insert(s: seq<Score>, x: Score): (r: seq<Score>)
    ensures |r| == |s| + 1
  {
    if s == [] || s[|s| - 1].score >= x.score then s + [x]
    else
      Insert(s[..|s| - 1], x) + [s[|s| - 1]]
  }

  /** The records as the insertion sort leaves them: each record inserted in turn into the sorted prefix. */
  function InsertionSorted(s: seq<Score>): (r: seq<Score>)
    ensures |r| == |s|
  {
    if s == [] then []
    else
      Insert(InsertionSorted(s[..|s| - 1]), s[|s| - 1])
  }

  /** Insertion adds x and nothing else: the records are moved, never lost or duplicated. */
  lemma {:induction false} InsertPermutes(s: seq<Score>, x: Score)
    ensures multiset(Insert(s, x)) == multiset(s) + multiset{x}
    decreases |s|
  {
    if s != [] && s[|s| - 1].score < x.score {
      var init := s[..|s| - 1];
      assert s == init + [s[|s| - 1]];
      InsertPermutes(init, x);
    }
  }

  /** The sort is a permutation: the names travel with their scores. */
  lemma {:induction false} InsertionSortedPermutes(s: seq<Score>)
    ensures multiset(InsertionSorted(s)) == multiset(s)
  {
    if s != [] {
      var init := s[..|s| - 1];
      assert s == init + [s[|s| - 1]];
      InsertionSortedPermutes(init);
      InsertPermutes(InsertionSorted(init), s[|s| - 1]);
    }
  }

  /**
   * Where the inner loop stops, the insertion puts the key: the records
   * before position k stay, x is at k, and the ones from k on (all scoring
   * lower than x) follow it one place further right.
   */
  lemma {:induction false} InsertAt(s: seq<Score>, x: Score, k: nat)
    requires k <= |s|
    requires forall t :: k <= t < |s| ==> s[t].score < x.score
    requires k == 0 || s[k - 1].score >= x.score
    ensures forall t :: 0 <= t < k ==> Insert(s, x)[t] == s[t]
    ensures Insert(s, x)[k] == x
    ensures forall t :: k < t <= |s| ==> Insert(s, x)[t] == s[t - 1]
    decreases |s|
  {
    if k < |s| {
      var init := s[..|s| - 1];
      InsertAt(init, x, k);
      assert Insert(s, x) == Insert(init, x) + [s[|s| - 1]];
    }
  }

  /** A bound every record of s and x satisfy holds for the whole insertion. */
  lemma {:induction false} InsertAbove(s: seq<Score>, x: Score, b: int)
    requires forall t :: 0 <= t < |s| ==> s[t].score >= b
    requires x.score >= b
    ensures forall t :: 0 <= t < |Insert(s, x)| ==> Insert(s, x)[t].score >= b
    decreases |s|
  {
    if s != [] && s[|s| - 1].score < x.score {
      InsertAbove(s[..|s| - 1], x, b);
    }
  }

  /** Inserting into a descending sequence keeps it descending. */
  lemma {:induction false} InsertKeepsDescending(s: seq<Score>, x: Score)
    requires Descending(s)
    ensures Descending(Insert(s, x))
    decreases |s|
  {
    if s != [] && s[|s| - 1].score < x.score {
      var init := s[..|s| - 1];
      var last := s[|s| - 1];
      InsertKeepsDescending(init, x);
      InsertAbove(init, x, last.score);
      assert Insert(s, x) == Insert(init, x) + [last];
    }
  }

  /** After the sort the scores are non-increasing. */
  lemma {:induction false} InsertionSortedIsDescending(s: seq<Score>)
    ensures Descending(InsertionSorted(s))
  {
    if s != [] {
      InsertionSortedIsDescending(s[..|s| - 1]);
      InsertKeepsDescending(InsertionSorted(s[..|s| - 1]), s[|s| - 1]);
    }
  }

  /** The records of s with score v, in the order they appear in s. */
  function WithScore(s: seq<Score>, v: int): (r: seq<Score>)
    ensures |r| <= |s|
    ensures forall i :: 0 <= i < |r| ==> r[i].score == v
  {
    if s == [] then []
    else WithScore(s[..|s| - 1], v) + (if s[|s| - 1].score == v then [s[|s| - 1]] else [])
  }

  lemma {:induction false} WithScoreAppend(a: seq<Score>, b: seq<Score>, v: int)
    ensures WithScore(a + b, v) == WithScore(a, v) + WithScore(b, v)
    decreases |b|
  {
    if b == [] {
      assert a + b == a;
    } else {
      assert (a + b)[..|a + b| - 1] == a + b[..|b| - 1];
      WithScoreAppend(a, b[..|b| - 1], v);
    }
  }

  /** Insertion puts x behind every record with its score: ties keep their order. */
  lemma {:induction false} InsertKeepsTies(s: seq<Score>, x: Score, v: int)
    ensures WithScore(Insert(s, x), v) == WithScore(s, v) + (if x.score == v then [x] else [])
    decreases |s|
  {
    if s == [] || s[|s| - 1].score >= x.score {
      WithScoreAppend(s, [x], v);
      assert [x][..0] == [];
    } else {
      var init := s[..|s| - 1];
      var last := s[|s| - 1];
      InsertKeepsTies(init, x, v);
      WithScoreAppend(Insert(init, x), [last], v);
      assert [last][..0] == [];
    }
  }

  /**
   * The sort is stable: for every score, the records with that score come
   * out in the order they went in.
   */
  lemma {:induction false} InsertionSortedIsStable(s: seq<Score>, v: int)
    ensures WithScore(InsertionSorted(s), v) == WithScore(s, v)
  {
    if s != [] {
      var init := s[..|s| - 1];
      InsertionSortedIsStable(init, v);
      InsertKeepsTies(InsertionSorted(init), s[|s| - 1], v);
    }
  }

  /**
   * The insertion sort of the ten records, in place: after the pass for i,
   * scores[0..i] is the sorted version of the first i + 1 input records.
   */
  method SortScores(scores: array<Score>)
    requires scores.Length == CAPACITY
    modifies scores
    ensures scores[..] == InsertionSorted(old(scores[..]))
  {
    ghost var input := scores[..];
    var i := 1;
    while i < CAPACITY
      invariant 1 <= i <= CAPACITY
      invariant scores[..i] == InsertionSorted(input[..i])
      invariant scores[i..] == input[i..]
    {
      assert scores[i] == input[i] && scores[i + 1..] == input[i + 1..] by {
        assert scores[i..][0] == scores[i] && scores[i..][1..] == scores[i + 1..];
      }
      InsertKey(scores, i);
      InsertionSortedStep(input, i);
      i := i + 1;
    }
    assert input[..CAPACITY] == input;
  }

  /** The sort of a longer prefix is the sort of the shorter one with the next record inserted. */
  lemma InsertionSortedStep(s: seq<Score>, i: int)
    requires 0 <= i < |s|
    ensures InsertionSorted(s[..i + 1]) == Insert(InsertionSorted(s[..i]), s[i])
  {
    assert s[..i + 1][..i] == s[..i];
  }

  /** One pass of the outer loop: key = scores[i] is taken out and put back at j + 1, where the inner loop stopped. */
  method InsertKey(scores: array<Score>, i: int)
    requires 0 < i < scores.Length
    modifies scores
    ensures scores[..i + 1] == Insert(old(scores[..i]), old(scores[i]))
    ensures scores[i + 1..] == old(scores[i + 1..])
  {
    var key := scores[i];
    ghost var sorted := scores[..i];
    var j := ShiftLower(scores, i, key);
    scores[j + 1] := key;
    PlacedIsInsert(sorted, key, j, scores[..i + 1]);
  }

  /**
   * What the inner loop leaves behind, with key stored at j + 1, is the
   * insertion: the records up to j stay, key follows, and the lower-scoring
   * records after it have each moved one place right.
   */
  lemma PlacedIsInsert(sorted: seq<Score>, key: Score, j: int, placed: seq<Score>)
    requires -1 <= j < |sorted| && |placed| == |sorted| + 1
    requires forall t :: 0 <= t <= j ==> placed[t] == sorted[t]
    requires placed[j + 1] == key
    requires forall t :: j + 2 <= t < |placed| ==> placed[t] == sorted[t - 1]
    requires forall t :: j + 1 <= t < |sorted| ==> sorted[t].score < key.score
    requires j >= 0 ==> sorted[j].score >= key.score
    ensures placed == Insert(sorted, key)
  {
    InsertAt(sorted, key, j + 1);
    assert forall t :: 0 <= t < |placed| ==> placed[t] == Insert(sorted, key)[t];
  }

  /**
   * The inner loop: starting at j = i - 1, the records with a lower score
   * than key move one place right; it stops at j >= -1, with scores[j]
   * (if any) scoring at least as much as key.
   */
  method ShiftLower(scores: array<Score>, i: int, key: Score) returns (j: int)
    requires 0 < i < scores.Length
    modifies scores
    ensures -1 <= j < i
    ensures forall t :: 0 <= t <= j ==> scores[t] == old(scores[t])
    ensures forall t :: j + 2 <= t <= i ==> scores[t] == old(scores[t - 1])
    ensures forall t :: j + 1 <= t < i ==> old(scores[t]).score < key.score
    ensures j >= 0 ==> old(scores[j]).score >= key.score
    ensures forall t :: i < t < scores.Length ==> scores[t] == old(scores[t])
  {
    j := i - 1;
    while j >= 0 && scores[j].score < key.score
      invariant -1 <= j < i
      invariant forall t :: 0 <= t <= j ==> scores[t] == old(scores[t])
      invariant forall t :: j + 2 <= t <= i ==> scores[t] == old(scores[t - 1])
      invariant forall t :: j + 1 <= t < i ==> old(scores[t]).score < key.score
      invariant forall t :: i < t < scores.Length ==> scores[t] == old(scores[t])
    {
      scores[j + 1] := scores[j];
      j := j - 1;
    }
  }

  /**
   * The program as a whole: the file's lines are parsed into the array,
   * whose ten records, the parsed ones followed by whatever the array held
   * beyond them, are then sorted.
   */
  method LoadAndSort(lines: seq<string>, scores: array<Score>) returns (ok: bool)
    requires |lines| <= scores.Length == CAPACITY
    requires forall i :: 0 <= i < |lines| ==> |lines[i]| >= 1
    modifies scores
    ensures ok <==> ParseAll(lines).Some?
    ensures ok ==> scores[..] == InsertionSorted(ParseAll(lines).value + old(scores[|lines|..]))
  {
    ok := LoadScores(lines, scores);
    if ok {
      SortScores(scores);
    }
  }
}
