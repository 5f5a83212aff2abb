// The time-flow decoder for obfuscated thumbnail addresses: a swap-and-pop
// unscrambler driven by the decimal digits of a time bucket.
module TimeFlow {
  import opened Prelude

  // Decimal digits of a time bucket, least significant first; empty for t <= 0.
  function Digits(t: int): (d: seq<nat>)
    ensures t > 0 <==> d != []
    ensures forall i :: 0 <= i < |d| ==> d[i] < 10
    decreases if t > 0 then t else 0
  {
    if t <= 0 then [] else [t % 10] + Digits(t / 10)
  }

  // The decimal text of a positive bucket.
  function Decimal(t: nat): (s: string)
    ensures t > 0 <==> s != []
    ensures '|' !in s
  {
    if t == 0 then "" else Decimal(t / 10) + ["0123456789"[t % 10]]
  }

  // x modulo m by repeated subtraction; WrapIsMod says it is the operator.
  function Wrap(x: nat, m: nat): (r: nat)
    requires m > 0
    ensures r < m
  {
    if x < m then x else Wrap(x - m, m)
  }

  lemma {:induction false} WrapIsMod(x: nat, m: nat)
    requires m > 0
    ensures Wrap(x, m) == x % m
  {
    if x >= m {
      WrapIsMod(x - m, m);
      DivisionIs(x, (x - m) / m + 1, (x - m) % m, m);
    }
  }

  // Where in the digits a text of length n starts.
  function StartDigit(n: nat, digits: seq<nat>): (k: nat)
    requires n > 0 && digits != []
    ensures k < |digits|
  {
    Wrap(n - 1, |digits|)
  }

  // The index the loop computes for the last element of a secret of length n.
  function NewIndex(n: nat, add: bool, k: nat, digits: seq<nat>): (j: nat)
    requires n > 0 && k < |digits|
    ensures j < n
  {
    var raw := if add then n - 1 + digits[k] * k else 2 * k * digits[k] - (n - 1);
    Wrap(if raw < 0 then -raw else raw, n)
  }

  function NextDigit(k: nat, digits: seq<nat>): (k': nat)
    requires k < |digits|
    ensures k' < |digits|
  {
    if k == 0 then |digits| - 1 else k - 1
  }

  // Swap the last element with element j and pop.
  function SwapPop<T>(s: seq<T>, j: nat): (rest: seq<T>)
    requires j < |s|
    ensures |rest| == |s| - 1
  {
    s[j := s[|s| - 1]][..|s| - 1]
  }

  function Unscramble<T>(s: seq<T>, add: bool, k: nat, digits: seq<nat>): (r: seq<T>)
    requires k < |digits|
    ensures |r| == |s|
    decreases |s|
  {
    if s == [] then []
    else
      var j := NewIndex(|s|, add, k, digits);
      Unscramble(SwapPop(s, j), !add, NextDigit(k, digits), digits) + [s[j]]
  }

  // Undo a SwapPop that took x out from position j.
  function PushSwap<T>(rest: seq<T>, j: nat, x: T): (s: seq<T>)
    requires j <= |rest|
    ensures |s| == |rest| + 1
  {
    if j == |rest| then rest + [x] else rest[j := x] + [rest[j]]
  }

  function Scramble<T>(r: seq<T>, add: bool, k: nat, digits: seq<nat>): (s: seq<T>)
    requires k < |digits|
    ensures |s| == |r|
  {
    if r == [] then []
    else
      var n := |r| - 1;
      PushSwap(Scramble(r[..n], !add, NextDigit(k, digits), digits), NewIndex(|r|, add, k, digits), r[n])
  }

  lemma PushThenPop<T>(rest: seq<T>, j: nat, x: T)
    requires j <= |rest|
    ensures SwapPop(PushSwap(rest, j, x), j) == rest && PushSwap(rest, j, x)[j] == x
  {
  }

  lemma PopThenPush<T>(s: seq<T>, j: nat)
    requires j < |s|
    ensures PushSwap(SwapPop(s, j), j, s[j]) == s
  {
  }

  lemma {:induction false} ScrambleThenUnscramble<T>(r: seq<T>, add: bool, k: nat, digits: seq<nat>)
    requires k < |digits|
    ensures Unscramble(Scramble(r, add, k, digits), add, k, digits) == r
  {
    if r != [] {
      var n := |r| - 1;
      var rest, j := Scramble(r[..n], !add, NextDigit(k, digits), digits), NewIndex(|r|, add, k, digits);
      ScrambleThenUnscramble(r[..n], !add, NextDigit(k, digits), digits);
      PushThenPop(rest, j, r[n]);
      assert r == r[..n] + [r[n]];
    }
  }

  lemma {:induction false} UnscrambleThenScramble<T>(s: seq<T>, add: bool, k: nat, digits: seq<nat>)
    requires k < |digits|
    ensures Scramble(Unscramble(s, add, k, digits), add, k, digits) == s
    decreases |s|
  {
    if s != [] {
      var j := NewIndex(|s|, add, k, digits);
      var rest := SwapPop(s, j);
      UnscrambleThenScramble(rest, !add, NextDigit(k, digits), digits);
      var r := Unscramble(s, add, k, digits);
      assert r[..|s| - 1] == Unscramble(rest, !add, NextDigit(k, digits), digits);
      PopThenPush(s, j);
    }
  }

  // Where each position of the result is taken from. It is a function of the
  // length and the digits alone.
  function Permutation(n: nat, add: bool, k: nat, digits: seq<nat>): (p: seq<nat>)
    requires k < |digits|
    ensures |p| == n
  {
    Unscramble(Indices(n), add, k, digits)
  }

  // s is the source read through the positions idx.
  ghost predicate ReadsOff<T>(s: seq<T>, idx: seq<nat>, source: seq<T>)
  {
    && |idx| == |s|
    && forall i :: 0 <= i < |s| ==> idx[i] < |source| && s[i] == source[idx[i]]
  }

  // The same choices on two parallel sequences.
  lemma {:induction false} UnscrambleParallel<T>(s: seq<T>, idx: seq<nat>, source: seq<T>, add: bool, k: nat, digits: seq<nat>)
    requires k < |digits| && ReadsOff(s, idx, source)
    ensures ReadsOff(Unscramble(s, add, k, digits), Unscramble(idx, add, k, digits), source)
    decreases |s|
  {
    if s != [] {
      var j := NewIndex(|s|, add, k, digits);
      UnscrambleParallel(SwapPop(s, j), SwapPop(idx, j), source, !add, NextDigit(k, digits), digits);
    }
  }

  lemma SwapPopTakesOut<T>(s: seq<T>, j: nat)
    requires j < |s|
    ensures multiset(SwapPop(s, j)) + multiset([s[j]]) == multiset(s)
  {
    var n := |s| - 1;
    assert s == s[..n] + [s[n]];
    assert SwapPop(s, j) == if j == n then s[..n] else s[..n][j := s[n]];
  }

  lemma {:induction false} UnscrambleKeepsElements<T>(s: seq<T>, add: bool, k: nat, digits: seq<nat>)
    requires k < |digits|
    ensures multiset(Unscramble(s, add, k, digits)) == multiset(s)
    decreases |s|
  {
    if s != [] {
      var j := NewIndex(|s|, add, k, digits);
      SwapPopTakesOut(s, j);
      UnscrambleKeepsElements(SwapPop(s, j), !add, NextDigit(k, digits), digits);
    }
  }

  // Every result is the input rearranged by one permutation of its positions,
  // the same for all inputs of that length.
  lemma {:induction false} UnscrambleIsPermutation<T>(s: seq<T>, add: bool, k: nat, digits: seq<nat>)
    requires k < |digits|
    ensures multiset(Permutation(|s|, add, k, digits)) == multiset(Indices(|s|))
    ensures ReadsOff(Unscramble(s, add, k, digits), Permutation(|s|, add, k, digits), s)
  {
    UnscrambleKeepsElements(Indices(|s|), add, k, digits);
    UnscrambleParallel(s, Indices(|s|), s, add, k, digits);
  }

  // The number a string of decimal digits denotes.
  function Denotes(s: string): int
  {
    if s == [] then 0 else 10 * Denotes(s[..|s| - 1]) + (s[|s| - 1] as int - '0' as int)
  }

  lemma DigitChar(d: nat)
    requires d < 10
    ensures var c := "0123456789"[d]; '0' <= c <= '9' && c as int - '0' as int == d && (d > 0 ==> c != '0')
  {}

  lemma DenotesOneMore(s: string, c: char)
    ensures Denotes(s + [c]) == 10 * Denotes(s) + (c as int - '0' as int)
  {
    assert (s + [c])[..|s|] == s;
  }

  // The bucket's text is its decimal notation: it denotes the bucket,
  lemma {:induction false} DecimalDenotes(t: nat)
    ensures Denotes(Decimal(t)) == t
  {
    if t > 0 {
      DecimalDenotes(t / 10);
      DigitChar(t % 10);
      DenotesOneMore(Decimal(t / 10), "0123456789"[t % 10]);
    }
  }

  // with digits only and no leading zero.
  lemma {:induction false} DecimalIsPlain(t: nat)
    ensures forall i :: 0 <= i < |Decimal(t)| ==> '0' <= Decimal(t)[i] <= '9'
    ensures t > 0 ==> Decimal(t)[0] != '0'
  {
    if t > 0 {
      DecimalIsPlain(t / 10);
      DigitChar(t % 10);
    }
  }

  // The whole decoder, Rust copy: the part before the first '|' must be the
  // bucket, and what follows the '|' is returned, or nothing when there is none.
  function Plain(value: string, t: int): string
    requires t > 0 && value != []
  {
    var digits := Digits(t);
    Unscramble(value, |value| % 2 == 0, StartDigit(|value|, digits), digits)
  }

  function BeforeBar(s: string): (head: string)
    ensures head <= s && '|' !in head
    ensures head == s || s[|head|] == '|'
  {
    if s == [] || s[0] == '|' then [] else [s[0]] + BeforeBar(s[1..])
  }

  // The characters, without the digit list

  // 10^k.
  function Pow10(k: nat): (p: nat)
    ensures p >= 1
  {
    if k == 0 then 1 else 10 * Pow10(k - 1)
  }

  lemma {:induction false} DigitAt(t: nat, k: nat)
    requires k < |Digits(t)|
    ensures Digits(t)[k] == (t / Pow10(k)) % 10
    decreases k
  {
    if k > 0 {
      DigitAt(t / 10, k - 1);
      DivideTwice(t, 10, Pow10(k - 1));
    }
  }

  // t has as many digits as its size says.
  lemma {:induction false} DigitCount(t: nat)
    requires t > 0
    ensures Pow10(|Digits(t)| - 1) <= t < Pow10(|Digits(t)|)
    decreases t
  {
    if t >= 10 {
      DigitCount(t / 10);
      var p := Pow10(|Digits(t / 10)| - 1);
      assert 10 * p <= t < 10 * (10 * p);
    }
  }

  lemma {:induction false} Pow10Grows(a: nat, b: nat)
    requires a <= b
    ensures Pow10(a) <= Pow10(b)
    decreases b
  {
    if a < b { Pow10Grows(a, b - 1); }
  }

  lemma DigitCountIs(t: nat, m: nat)
    requires t > 0 && m > 0 && Pow10(m - 1) <= t < Pow10(m)
    ensures |Digits(t)| == m
  {
    DigitCount(t);
    var n := |Digits(t)|;
    if n < m { Pow10Grows(n, m - 1); }
    if m < n { Pow10Grows(m, n - 1); }
  }

  lemma {:induction false} WrapDown(x: nat, m: nat)
    requires x > 0 && m > 0
    ensures Wrap(x - 1, m) == if Wrap(x, m) == 0 then m - 1 else Wrap(x, m) - 1
    decreases x
  {
    if x > m { WrapDown(x - m, m); }
  }

  // The loop's flag and digit index are those it would start with on what is left.
  lemma LoopStartsAfresh(n: nat, digits: seq<nat>)
    requires n > 1 && digits != []
    ensures NextDigit(StartDigit(n, digits), digits) == StartDigit(n - 1, digits)
  {
    WrapDown(n - 1, |digits|);
  }

  // Where the last character of the plain text stands in a value of length n, for a
  // bucket t of m decimal digits: the digit of weight 10^k decides, k = (n - 1) mod m.
  function LastFrom(n: nat, t: nat, m: nat): nat
    requires n > 0 && m > 0
  {
    var k := (n - 1) % m;
    var d := (t / Pow10(k)) % 10;
    var index := if n % 2 == 0 then n - 1 + d * k else 2 * k * d - (n - 1);
    (if index < 0 then -index else index) % n
  }

  lemma NewIndexIs(n: nat, t: nat, m: nat)
    requires n > 0 && t > 0 && m > 0 && Pow10(m - 1) <= t < Pow10(m)
    ensures Digits(t) != [] && NewIndex(n, n % 2 == 0, StartDigit(n, Digits(t)), Digits(t)) == LastFrom(n, t, m)
  {
    DigitCountIs(t, m);
    var k := StartDigit(n, Digits(t));
    WrapIsMod(n - 1, m);
    DigitAt(t, k);
    var index := if n % 2 == 0 then n - 1 + Digits(t)[k] * k else 2 * k * Digits(t)[k] - (n - 1);
    WrapIsMod(if index < 0 then -index else index, n);
  }

  function PlainWith(value: string, digits: seq<nat>): string
    requires value != [] && digits != []
  {
    Unscramble(value, |value| % 2 == 0, StartDigit(|value|, digits), digits)
  }

  lemma {:induction false} PlainWithTurn(value: string, digits: seq<nat>, j: nat)
    requires value != [] && digits != []
    requires j == NewIndex(|value|, |value| % 2 == 0, StartDigit(|value|, digits), digits)
    ensures PlainWith(value, digits) == (if |value| == 1 then [] else PlainWith(SwapPop(value, j), digits)) + [value[j]]
  {
    var rest, n := SwapPop(value, j), |value|;
    assert PlainWith(value, digits) == Unscramble(rest, n % 2 != 0, NextDigit(StartDigit(n, digits), digits), digits) + [value[j]];
    if n > 1 {
      LoopStartsAfresh(n, digits);
      assert (n - 1) % 2 == 0 <==> n % 2 != 0;
    }
  }

  // Which character of the value lands where, turn by turn: the last plain character
  // comes from LastFrom, the last one of the value takes its place, and what is left is
  // a value for the rest.
  lemma {:induction false} PlainTurn(value: string, t: nat, m: nat)
    requires t > 0 && value != [] && m > 0 && Pow10(m - 1) <= t < Pow10(m)
    ensures var n := |value|;
            var j := LastFrom(n, t, m);
            && j < n && |Plain(value, t)| == n
            && Plain(value, t)[n - 1] == value[j]
            && Plain(value, t)[..n - 1] == if n == 1 then [] else Plain(value[j := value[n - 1]][..n - 1], t)
  {
    NewIndexIs(|value|, t, m);
    PlainWithTurn(value, Digits(t), LastFrom(|value|, t, m));
  }

  function DecodeAt(value: string, timeNow: int): (r: Result<string, string>)
  {
    var t := timeNow / 1000;
    if value == [] then Ok([])
    else if t <= 0 then Err("Invalid time value")
    else
      var plain := Plain(value, t);
      var head := BeforeBar(plain);
      if head != Decimal(t) then Err("Invalid time flow string")
      else if |head| + 1 <= |plain| then Ok(plain[|head| + 1..]) else Ok([])
  }

  // The Swift copy accepts only the form with a '|'.
  function SwiftDecodeAt(value: string, timeNow: int): (r: Option<string>)
  {
    var t := timeNow / 1000;
    if value == [] then Some([])
    else if t <= 0 then None
    else
      var plain, prefix := Plain(value, t), Decimal(t) + "|";
      if prefix <= plain then Some(plain[|prefix|..]) else None
  }

  function Scrambled(plain: string, t: int): (value: string)
    requires t > 0 && plain != []
    ensures value != []
  {
    var digits := Digits(t);
    Scramble(plain, |plain| % 2 == 0, StartDigit(|plain|, digits), digits)
  }

  // What a server that knows the scheme sends for a url in bucket t.
  function Encode(url: string, t: nat): (value: string)
    requires t > 0
    ensures value != []
  {
    Scrambled(Decimal(t) + "|" + url, t)
  }

  lemma {:induction false} PlainOfScrambled(plain: string, t: int)
    requires t > 0 && plain != []
    ensures Plain(Scrambled(plain, t), t) == plain
  {
    ScrambleThenUnscramble(plain, |plain| % 2 == 0, StartDigit(|plain|, Digits(t)), Digits(t));
  }

  lemma {:induction false} ScrambledOfPlain(value: string, t: int)
    requires t > 0 && value != []
    ensures Plain(value, t) != [] && Scrambled(Plain(value, t), t) == value
  {
    UnscrambleThenScramble(value, |value| % 2 == 0, StartDigit(|value|, Digits(t)), Digits(t));
  }

  lemma {:induction false} BeforeBarIs(s: string, head: string)
    requires '|' !in head
    ensures BeforeBar(s) == head <==> s == head || head + "|" <= s
  {
    if s == [] || s[0] == '|' {
      if head == [] && s != [] {
        assert head + "|" == "|" && s[0] == '|';
      }
    } else if head != [] && head[0] == s[0] {
      BeforeBarIs(s[1..], head[1..]);
      assert s == [s[0]] + s[1..] && head == [head[0]] + head[1..];
      assert head + "|" == [head[0]] + (head[1..] + "|");
      assert head + "|" <= s <==> head[1..] + "|" <= s[1..];
    }
  }

  // Exactly one scrambled string has the plain form "t|url".
  lemma {:induction false} EncodeUnique(value: string, url: string, t: nat)
    requires t > 0 && value != []
    ensures Plain(value, t) == Decimal(t) + "|" + url <==> value == Encode(url, t)
  {
    ScrambledOfPlain(value, t);
    PlainOfScrambled(Decimal(t) + "|" + url, t);
  }

  lemma {:induction false} DecodeInBucket(value: string, url: string, timeNow: int)
    requires timeNow / 1000 > 0 && value != []
    ensures var t := timeNow / 1000;
            && (SwiftDecodeAt(value, timeNow) == Some(url) <==> value == Encode(url, t))
            && (DecodeAt(value, timeNow) == Ok(url) <==> value == Encode(url, t) || (url == [] && Plain(value, t) == Decimal(t)))
  {
    var t := timeNow / 1000;
    var plain := Plain(value, t);
    EncodeUnique(value, url, t);
    BeforeBarIs(plain, Decimal(t));
    var prefix := Decimal(t) + "|";
    if prefix <= plain {
      assert plain == prefix + plain[|prefix|..];
      assert plain == prefix + url <==> plain[|prefix|..] == url;
    } else {
      assert plain != prefix + url;
    }
  }

  // Decoding yields url exactly for the empty value and url, or in a positive bucket for
  // that one string; the Rust copy also takes the scrambled form of the bare bucket for
  // an empty url. Every other value is an error.
  lemma {:induction false} DecodeExactly(value: string, url: string, timeNow: int)
    ensures SwiftDecodeAt(value, timeNow) == Some(url) <==>
            if value == [] then url == [] else timeNow / 1000 > 0 && value == Encode(url, timeNow / 1000)
    ensures DecodeAt(value, timeNow) == Ok(url) <==>
            if value == [] then url == []
            else timeNow / 1000 > 0 &&
                 (value == Encode(url, timeNow / 1000) || (url == [] && Plain(value, timeNow / 1000) == Decimal(timeNow / 1000)))
  {
    if value != [] && timeNow / 1000 > 0 {
      DecodeInBucket(value, url, timeNow);
    }
  }

  // The two copies disagree exactly on the scrambled bare bucket.
  lemma {:induction false} CopiesDisagree(value: string, timeNow: int)
    ensures var t := timeNow / 1000;
            (DecodeAt(value, timeNow).Ok? <==> SwiftDecodeAt(value, timeNow).Some?)
              <==> !(value != [] && t > 0 && Plain(value, t) == Decimal(t))
    ensures SwiftDecodeAt(value, timeNow).Some? ==> DecodeAt(value, timeNow) == Ok(SwiftDecodeAt(value, timeNow).value)
  {
    var t := timeNow / 1000;
    if value != [] && t > 0 {
      var plain := Plain(value, t);
      BeforeBarIs(plain, Decimal(t));
    }
  }

  // The wrapper tries the current second, then a bucket earlier, then one later.
  function Decode(value: string, timeNow: int): (r: Result<string, string>)
  {
    var now := DecodeAt(value, timeNow);
    if now.Ok? then now
    else
      var before := DecodeAt(value, timeNow - 1000);
      if before.Ok? then before
      else
        var after := DecodeAt(value, timeNow + 1000);
        if after.Ok? then after else Err("Failed to decode time flow string")
  }

  lemma FirstAccepting(value: string, timeNow: int, candidate: int)
    requires candidate == timeNow || candidate == timeNow - 1000 || candidate == timeNow + 1000
    requires DecodeAt(value, candidate).Ok?
    ensures Decode(value, timeNow).Ok?
    ensures Decode(value, timeNow) == DecodeAt(value, candidate)
         || (candidate != timeNow && DecodeAt(value, timeNow).Ok?)
         || (candidate == timeNow + 1000 && DecodeAt(value, timeNow - 1000).Ok?)
  {}

  // A clock up to a bucket away still decodes; the only way to get anything
  // but the url is that an earlier candidate bucket accepts the same string.
  lemma {:induction false} DecodeTolerance(url: string, t: nat, timeNow: int)
    requires t > 0 && -1 <= t - timeNow / 1000 <= 1
    ensures Decode(Encode(url, t), timeNow).Ok?
    ensures Decode(Encode(url, t), timeNow) == Ok(url)
         || (t != timeNow / 1000 && DecodeAt(Encode(url, t), timeNow).Ok?)
         || (t == timeNow / 1000 + 1 && DecodeAt(Encode(url, t), timeNow - 1000).Ok?)
  {
    var value := Encode(url, t);
    var candidate := timeNow + (t - timeNow / 1000) * 1000;
    assert candidate / 1000 == t;
    DecodeExactly(value, url, candidate);
    FirstAccepting(value, timeNow, candidate);
  }

  method TimeDigits(t: int) returns (digits: seq<nat>)
    ensures digits == Digits(t)
  {
    var time := t;
    digits := [];
    while time > 0
      invariant digits + Digits(time) == Digits(t)
      decreases time
    {
      assert digits + Digits(time) == (digits + [time % 10]) + Digits(time / 10);
      digits := digits + [time % 10];
      time := time / 10;
    }
  }

  method LoopIndex(n: nat, add: bool, k: nat, digits: seq<nat>) returns (newIndex: int)
    requires n > 0 && k < |digits|
    ensures newIndex == NewIndex(n, add, k, digits)
  {
    newIndex := n - 1;
    if add {
      newIndex := newIndex + digits[k] * k;
    } else {
      newIndex := 2 * k * digits[k] - newIndex;
    }
    if newIndex < 0 {
      newIndex := newIndex * -1;
    }
    WrapIsMod(newIndex, n);
    newIndex := newIndex % n;
  }

  method FirstDigit(n: nat, digits: seq<nat>) returns (k: nat)
    requires n > 0 && digits != []
    ensures k == StartDigit(n, digits)
  {
    WrapIsMod(n - 1, |digits|);
    k := (n - 1) % |digits|;
  }

  // One turn of the loop moves the chosen element to the front of what is done.
  lemma LoopStep(secret: string, add: bool, k: nat, digits: seq<nat>, done: string)
    requires k < |digits| && secret != []
    ensures var j := NewIndex(|secret|, add, k, digits);
            var rest := Unscramble(SwapPop(secret, j), !add, NextDigit(k, digits), digits);
            Unscramble(secret, add, k, digits) + done == rest + ([secret[j]] + done)
  {
    var j := NewIndex(|secret|, add, k, digits);
    var rest := Unscramble(SwapPop(secret, j), !add, NextDigit(k, digits), digits);
    assert rest + [secret[j]] + done == rest + ([secret[j]] + done);
  }

  // The loop both copies run: fill the result from the back, swap and pop.
  method UnscrambleLoop(value: string, digits: seq<nat>) returns (text: string)
    requires value != [] && digits != []
    ensures text == Unscramble(value, |value| % 2 == 0, StartDigit(|value|, digits), digits)
  {
    var l := |value|;
    var res := new char[l](i requires 0 <= i < l => value[i]);
    var secret := value;
    var add := |secret| % 2 == 0;
    var k := FirstDigit(|secret|, digits);
    ghost var plain := Unscramble(value, add, k, digits);
    for pos := 0 to l
      invariant |secret| == l - pos && 0 <= k < |digits|
      invariant Unscramble(secret, add, k, digits) + res[l - pos..] == plain
    {
      var resIndex := l - 1 - pos;
      var newIndex := LoopIndex(|secret|, add, k, digits);
      ghost var done := res[l - pos..];
      LoopStep(secret, add, k, digits, done);
      res[resIndex] := secret[newIndex];
      assert res[resIndex..] == [secret[newIndex]] + done;
      var a, b := secret[resIndex], secret[newIndex];
      var swapped := secret[newIndex := a][resIndex := b];
      assert swapped[..resIndex] == SwapPop(secret, newIndex);
      secret := swapped[..resIndex];
      add := !add;
      k := if k == 0 then |digits| - 1 else k - 1;
    }
    text := res[..];
    assert text == res[l - l..];
  }

  method DecodeTimeFlowString(value: string, timeNow: int) returns (r: Result<string, string>)
    ensures r == DecodeAt(value, timeNow)
  {
    var t := timeNow / 1000;
    if value == [] {
      return Ok([]);
    }
    var digits := TimeDigits(t);
    if digits == [] {
      return Err("Invalid time value");
    }
    var text := UnscrambleLoop(value, digits);
    var head := BeforeBar(text);
    if head != Decimal(t) {
      return Err("Invalid time flow string");
    }
    if |head| + 1 <= |text| {
      return Ok(text[|head| + 1..]);
    }
    return Ok([]);
  }
}
