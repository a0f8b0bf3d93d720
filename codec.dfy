/** The "Eps Compressed" column: a series' per-season episode counts written as
    `" ".join(map(str, counts))` and read back with `split()` and `int()`. */
module EpisodeCodec {
  import opened Wrappers

  // ---------------------------------------------------------------------------
  // Characters

  /** The characters Python's `str.split()` (no separator) treats as whitespace,
      within the ASCII and Latin-1 range. */
  predicate IsSpace(c: char) {
    var k := c as int;
    k == 32 || 9 <= k <= 13 || 28 <= k <= 31 || k == 0x85 || k == 0xA0
  }

  predicate IsDigit(c: char) {
    '0' <= c <= '9'
  }

  predicate AllDigits(s: string) {
    forall i :: 0 <= i < |s| ==> IsDigit(s[i])
  }

  function DigitValue(c: char): (d: nat)
    requires IsDigit(c)
    ensures d < 10
  {
    c as int - '0' as int
  }

  function DigitChar(d: nat): (c: char)
    requires d < 10
    ensures IsDigit(c) && DigitValue(c) == d
  {
    ('0' as int + d) as char
  }

  // ---------------------------------------------------------------------------
  // str(int) and int(str)

  /** The decimal digits of `n` as Python's `str` prints them: most significant first. */
  function NatToDigits(n: nat): (s: string)
    ensures |s| > 0 && AllDigits(s)
    ensures s[0] == '0' ==> n == 0
  {
    if n < 10 then [DigitChar(n)] else NatToDigits(n / 10) + [DigitChar(n % 10)]
  }

  /** The value of a string of decimal digits; leading zeros are allowed, as `int("007")` allows them. */
  function DigitsValue(s: string): nat
    requires AllDigits(s)
  {
    if s == [] then 0 else DigitsValue(s[..|s| - 1]) * 10 + DigitValue(s[|s| - 1])
  }

  /** `str(i)` for an int. */
  function IntToString(i: int): string {
    if i < 0 then ['-'] + NatToDigits(-i) else NatToDigits(i)
  }

  /** `int(t)` for one token of `split()`: an optional sign followed by at least one
      decimal digit. `None` stands for the `ValueError` Python raises otherwise. */
  function ParseInt(t: string): Option<int> {
    if |t| > 0 && (t[0] == '-' || t[0] == '+') then
      if |t| > 1 && AllDigits(t[1..]) then
        Some(if t[0] == '-' then -(DigitsValue(t[1..]) as int) else DigitsValue(t[1..]))
      else None
    else if |t| > 0 && AllDigits(t) then Some(DigitsValue(t))
    else None
  }

  lemma {:induction false} DigitsRoundTrip(n: nat)
    ensures DigitsValue(NatToDigits(n)) == n
  {
    if n >= 10 {
      var s := NatToDigits(n);
      assert s[..|s| - 1] == NatToDigits(n / 10);
      DigitsRoundTrip(n / 10);
    }
  }

  /** `int(str(i)) == i` for every int. */
  lemma ParseIntRoundTrip(i: int)
    ensures ParseInt(IntToString(i)) == Some(i)
  {
    if i < 0 {
      var t := IntToString(i);
      assert t[1..] == NatToDigits(-i);
      DigitsRoundTrip(-i);
    } else {
      DigitsRoundTrip(i);
    }
  }

  /** `int()` refuses a token holding any character that is neither a digit nor its leading sign. */
  lemma ParseIntRejects(t: string, k: nat)
    requires k < |t| && !IsDigit(t[k])
    requires k > 0 || (t[0] != '-' && t[0] != '+')
    ensures ParseInt(t) == None
  {
  }

  // ---------------------------------------------------------------------------
  // " ".join and split()

  /** A piece `split()` can return: non-empty and free of whitespace. */
  predicate IsToken(t: string) {
    |t| > 0 && forall i :: 0 <= i < |t| ==> !IsSpace(t[i])
  }

  /** The length of the run of non-whitespace characters that starts `s`. */
  function TokenLength(s: string): (k: nat)
    ensures k <= |s|
    ensures forall i :: 0 <= i < k ==> !IsSpace(s[i])
    ensures k == |s| || IsSpace(s[k])
  {
    if s == [] || IsSpace(s[0]) then 0 else 1 + TokenLength(s[1..])
  }

  /** `s.split()`: the maximal runs of non-whitespace characters of `s`, in order;
      leading, trailing and repeated whitespace produce no empty pieces. */
  function Split(s: string): (tokens: seq<string>)
    ensures forall i :: 0 <= i < |tokens| ==> IsToken(tokens[i])
    decreases |s|
  {
    if s == [] then []
    else if IsSpace(s[0]) then Split(s[1..])
    else
      var k := TokenLength(s);
      [s[..k]] + Split(s[k..])
  }

  /** `" ".join(tokens)`. */
  function Join(tokens: seq<string>): string {
    if tokens == [] then []
    else if |tokens| == 1 then tokens[0]
    else tokens[0] + [' '] + Join(tokens[1..])
  }

  lemma {:induction false} TokenLengthOfToken(t: string, rest: string)
    requires IsToken(t)
    requires rest == [] || IsSpace(rest[0])
    ensures TokenLength(t + rest) == |t|
  {
    if |t| > 1 {
      assert (t + rest)[1..] == t[1..] + rest;
      TokenLengthOfToken(t[1..], rest);
    }
  }

  /** Splitting a space-joined list of tokens gives the tokens back. */
  lemma {:induction false} SplitJoin(tokens: seq<string>)
    requires forall i :: 0 <= i < |tokens| ==> IsToken(tokens[i])
    ensures Split(Join(tokens)) == tokens
  {
    if tokens == [] {
    } else if |tokens| == 1 {
      var t := tokens[0];
      TokenLengthOfToken(t, []);
      assert t + [] == t;
      assert t[..|t|] == t && t[|t|..] == [];
    } else {
      var t, rest := tokens[0], Join(tokens[1..]);
      var s := t + [' '] + rest;
      assert s == t + ([' '] + rest);
      TokenLengthOfToken(t, [' '] + rest);
      assert s[..|t|] == t;
      assert s[|t|..] == [' '] + rest;
      assert ([' '] + rest)[1..] == rest;
      SplitJoin(tokens[1..]);
      assert tokens == [t] + tokens[1..];
    }
  }

  // ---------------------------------------------------------------------------
  // Eps Compressed

  /** `map(str, counts)`. */
  function CountStrings(counts: seq<int>): (tokens: seq<string>)
    ensures |tokens| == |counts|
  {
    if counts == [] then [] else [IntToString(counts[0])] + CountStrings(counts[1..])
  }

  /** `list(map(int, tokens))`; `None` when some token makes `int()` raise. */
  function ParseAll(tokens: seq<string>): Option<seq<int>> {
    if tokens == [] then Some([])
    else match ParseInt(tokens[0])
      case None => None
      case Some(v) =>
        match ParseAll(tokens[1..])
        case None => None
        case Some(vs) => Some([v] + vs)
  }

  /** The "Eps Compressed" text written for the per-season counts (random_episode.py:110). */
  function Encode(counts: seq<int>): string {
    Join(CountStrings(counts))
  }

  /** The per-season counts read back from "Eps Compressed" (random_episode.py:66). */
  function Decode(s: string): Option<seq<int>> {
    ParseAll(Split(s))
  }

  lemma {:induction false} CountStringsAreTokens(counts: seq<int>)
    ensures forall i :: 0 <= i < |counts| ==> IsToken(CountStrings(counts)[i])
  {
    if counts != [] {
      CountStringsAreTokens(counts[1..]);
      var t := IntToString(counts[0]);
      assert forall j :: 0 <= j < |t| ==> IsDigit(t[j]) || t[j] == '-';
    }
  }

  lemma {:induction false} ParseAllCountStrings(counts: seq<int>)
    ensures ParseAll(CountStrings(counts)) == Some(counts)
  {
    if counts != [] {
      ParseIntRoundTrip(counts[0]);
      var tokens := CountStrings(counts);
      assert tokens[1..] == CountStrings(counts[1..]);
      ParseAllCountStrings(counts[1..]);
      assert counts == [counts[0]] + counts[1..];
    }
  }

  /** Decoding what was encoded gives back every count, in season order. */
  lemma EncodeDecodeRoundTrip(counts: seq<int>)
    ensures Decode(Encode(counts)) == Some(counts)
  {
    CountStringsAreTokens(counts);
    SplitJoin(CountStrings(counts));
    ParseAllCountStrings(counts);
  }

  /** A stored value that is not a list of integers (here "10 x") cannot be decoded. */
  lemma DecodeRejectsGarbage()
    ensures Decode("10 x") == None
  {
  }

  // ---------------------------------------------------------------------------
  // Season maps

  /** `{season + 1: counts[season] for season in range(len(counts))}` (random_episode.py:67),
      built season by season in the order the comprehension inserts them. */
  function SeasonMap(counts: seq<int>): map<int, int> {
    if counts == [] then map[]
    else SeasonMap(counts[..|counts| - 1])[|counts| := counts[|counts| - 1]]
  }

  /** The season map holds one entry per count: keys exactly 1..n, key s holding the s-th count. */
  lemma {:induction false} SeasonMapShape(counts: seq<int>)
    ensures forall s :: s in SeasonMap(counts) <==> 1 <= s <= |counts|
    ensures forall s :: 1 <= s <= |counts| ==> SeasonMap(counts)[s] == counts[s - 1]
    ensures |SeasonMap(counts)| == |counts|
  {
    if counts != [] {
      var n := |counts|;
      var p := counts[..n - 1];
      SeasonMapShape(p);
      assert n !in SeasonMap(p);
    }
  }

  /** Two count lists with the same season map are the same list: the map loses nothing. */
  lemma SeasonMapInjective(a: seq<int>, b: seq<int>)
    requires SeasonMap(a) == SeasonMap(b)
    ensures a == b
  {
    SeasonMapShape(a);
    SeasonMapShape(b);
    assert |a| == |b|;
    forall i | 0 <= i < |a| ensures a[i] == b[i] {
      assert SeasonMap(a)[i + 1] == SeasonMap(b)[i + 1];
    }
  }
}
