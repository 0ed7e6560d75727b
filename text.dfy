/** String helpers standing in for the parts of bufio, fmt and strings that the search uses. */
module Text {
  import opened Wrappers

  /** Position of the first `c` in `s`, if any. */
  function IndexOf(s: string, c: char): (r: Option<nat>)
    ensures r.Some? ==> r.value < |s| && s[r.value] == c && c !in s[..r.value]
    ensures r.None? ==> c !in s
  {
    if s == [] then None
    else if s[0] == c then Some(0)
    else
      assert s == [s[0]] + s[1..];
      match IndexOf(s[1..], c)
      case None => None
      case Some(k) =>
        assert s[..k + 1] == [s[0]] + s[1..][..k];
        Some(k + 1)
  }

  /** The first occurrence is unique: any index meeting IndexOf's description is its result. */
  lemma IndexOfIs(s: string, c: char, k: nat)
    requires k < |s| && s[k] == c && c !in s[..k]
    ensures IndexOf(s, c) == Some(k)
  {
    assert s[k] in s;
  }

  /**
   * The lines `bufio.Reader.ReadString('\n')` hands back without an error: every
   * '\n'-terminated piece of `s`, each keeping its '\n'. Text after the last '\n'
   * is not a line.
   */
  function Lines(s: string): seq<string>
    decreases |s|
  {
    match IndexOf(s, '\n')
    case None => []
    case Some(k) => [s[..k + 1]] + Lines(s[k + 1..])
  }

  /** A line ends in '\n' and holds no other. */
  predicate IsLine(l: string)
  {
    |l| > 0 && l[|l| - 1] == '\n' && '\n' !in l[..|l| - 1]
  }

  /** Every line keeps its terminating '\n' and holds no other '\n'. */
  lemma {:induction false} LinesAreTerminated(s: string)
    ensures forall i :: 0 <= i < |Lines(s)| ==> IsLine(Lines(s)[i])
    decreases |s|
  {
    match IndexOf(s, '\n')
    case None =>
    case Some(k) =>
      var first := s[..k + 1];
      assert first[..k] == s[..k];
      assert IsLine(first);
      LinesAreTerminated(s[k + 1..]);
      var ls := Lines(s);
      assert ls == [first] + Lines(s[k + 1..]);
      forall i | 0 <= i < |ls|
        ensures IsLine(ls[i])
      {
        if i > 0 {
          assert ls[i] == Lines(s[k + 1..])[i - 1];
        }
      }
  }

  /**
   * The line that starts at `pos` and ends at the '\n' at `i`, then the lines after it:
   * what one ReadString call consumes.
   */
  lemma LinesFrom(s: string, pos: nat, i: nat)
    requires pos <= i < |s| && s[i] == '\n' && '\n' !in s[pos..i]
    ensures Lines(s[pos..]) == [s[pos..i + 1]] + Lines(s[i + 1..])
  {
    var u := s[pos..];
    var k := i - pos;
    assert u[..k] == s[pos..i];
    IndexOfIs(u, '\n', k);
    LinesStep(u, k);
    var first, rest := u[..k + 1], u[k + 1..];
    assert first == s[pos..i + 1];
    assert rest == s[i + 1..];
    assert Lines(u) == [first] + Lines(rest);
  }

  /** The unterminated text after the last '\n' of `s`. */
  function Trailer(s: string): (t: string)
    ensures '\n' !in t
    decreases |s|
  {
    match IndexOf(s, '\n')
    case None => s
    case Some(k) => Trailer(s[k + 1..])
  }

  function Concat(ls: seq<string>): string
  {
    if ls == [] then "" else ls[0] + Concat(ls[1..])
  }

  /** Splitting into lines loses nothing: the lines followed by the trailer give back `s`. */
  lemma {:induction false} LinesRoundTrip(s: string)
    ensures Concat(Lines(s)) + Trailer(s) == s
    decreases |s|
  {
    var r := IndexOf(s, '\n');
    if r.Some? {
      var k := r.value;
      var first, rest := s[..k + 1], s[k + 1..];
      LinesRoundTrip(rest);
      LinesStep(s, k);
      ConcatCons(first, Lines(rest));
      assert Trailer(s) == Trailer(rest);
      AppendAssoc(first, Concat(Lines(rest)), Trailer(rest));
      assert s == first + rest;
    }
  }

  lemma ConcatCons(first: string, ls: seq<string>)
    ensures Concat([first] + ls) == first + Concat(ls)
  {
    assert ([first] + ls)[1..] == ls;
  }

  /** One step of the line split: the first line, then the lines of what follows it. */
  lemma LinesStep(s: string, k: nat)
    requires IndexOf(s, '\n') == Some(k)
    ensures Lines(s) == [s[..k + 1]] + Lines(s[k + 1..])
  {
  }

  /** Lines of a concatenation whose first part ends in '\n' are the lines of each part. */
  lemma {:induction false} LinesAppend(s: string, t: string)
    requires s == [] || s[|s| - 1] == '\n'
    ensures Lines(s + t) == Lines(s) + Lines(t)
    decreases |s|
  {
    if s == [] {
      assert s + t == t;
    } else {
      assert s[|s| - 1] in s;
      var k := IndexOf(s, '\n').value;
      var first, rest := s[..k + 1], s[k + 1..];
      LinesStep(s, k);
      LinesStepAppend(s, t, k);
      assert rest == [] || rest[|rest| - 1] == '\n';
      LinesAppend(rest, t);
      AppendAssoc([first], Lines(rest), Lines(t));
    }
  }

  /** The first line of `s` is also the first line of `s + t`. */
  lemma LinesStepAppend(s: string, t: string, k: nat)
    requires IndexOf(s, '\n') == Some(k)
    ensures Lines(s + t) == [s[..k + 1]] + Lines(s[k + 1..] + t)
  {
    var st := s + t;
    assert st[..k] == s[..k];
    IndexOfIs(st, '\n', k);
    LinesStep(st, k);
    assert st[..k + 1] == s[..k + 1];
    assert st[k + 1..] == s[k + 1..] + t;
  }

  /** A single '\n'-terminated line is its own only line. */
  lemma SingleLine(l: string)
    requires IsLine(l)
    ensures Lines(l) == [l]
  {
    var k := |l| - 1;
    IndexOfIs(l, '\n', k);
    LinesStep(l, k);
    assert l[..k + 1] == l && l[k + 1..] == [];
  }

  lemma AppendAssoc<T>(a: seq<T>, b: seq<T>, c: seq<T>)
    ensures a + (b + c) == (a + b) + c
  {
  }

  /** Text holding no '\n' has no complete line. */
  lemma NoLinesWithoutNewline(t: string)
    requires '\n' !in t
    ensures Lines(t) == []
  {
  }

  /** The digit character for `d`. */
  function DigitChar(d: nat): char
    requires d < 10
  {
    ('0' as int + d) as char
  }

  function DigitValue(c: char): nat
    requires '0' <= c <= '9'
  {
    c as int - '0' as int
  }

  predicate IsDigits(s: string)
  {
    forall i :: 0 <= i < |s| ==> '0' <= s[i] <= '9'
  }

  /** Decimal rendering of `n`, as the `%d` verb prints it: digits only, no leading zero. */
  function Decimal(n: nat): (s: string)
    ensures |s| > 0 && IsDigits(s)
    ensures s[0] == '0' <==> n == 0
  {
    if n < 10 then [DigitChar(n)] else Decimal(n / 10) + [DigitChar(n % 10)]
  }

  /** Value of a string of decimal digits. */
  function ParseDecimal(s: string): nat
    requires IsDigits(s)
  {
    if s == [] then 0 else 10 * ParseDecimal(s[..|s| - 1]) + DigitValue(s[|s| - 1])
  }

  /** The rendering of a number reads back as that number. */
  lemma {:induction false} DecimalRoundTrip(n: nat)
    ensures ParseDecimal(Decimal(n)) == n
  {
    if n >= 10 {
      var s := Decimal(n);
      assert s[..|s| - 1] == Decimal(n / 10);
      DecimalRoundTrip(n / 10);
    }
  }

  /** `strings.Join`: the parts with `sep` between consecutive ones. */
  function Join(parts: seq<string>, sep: string): string
  {
    if |parts| == 0 then ""
    else if |parts| == 1 then parts[0]
    else parts[0] + sep + Join(parts[1..], sep)
  }

  /** `strings.Split` on a single character: the pieces between occurrences of `c`. */
  function Split(s: string, c: char): (parts: seq<string>)
    ensures |parts| > 0
    decreases |s|
  {
    match IndexOf(s, c)
    case None => [s]
    case Some(k) => [s[..k]] + Split(s[k + 1..], c)
  }

  /** Joining parts that hold no separator character can be undone by splitting. */
  lemma {:induction false} SplitJoin(parts: seq<string>, c: char)
    requires |parts| > 0
    requires forall i :: 0 <= i < |parts| ==> c !in parts[i]
    ensures Split(Join(parts, [c]), c) == parts
    decreases |parts|
  {
    if |parts| > 1 {
      var a, b := parts[0], Join(parts[1..], [c]);
      var s := a + [c] + b;
      assert s[..|a|] == a;
      IndexOfIs(s, c, |a|);
      assert s[|a| + 1..] == b;
      SplitJoin(parts[1..], c);
      assert parts == [parts[0]] + parts[1..];
    }
  }
}
