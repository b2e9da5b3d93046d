/**
  The API-key list of service/youtube_service.go: reading it from the
  comma-separated `API_KEYS` variable, and the index arithmetic of rotating
  through it.
 */
module ApiKeys {
  import opened Wrappers

  const Separator: char := ','

  /** Why startup refuses the key configuration (each is fatal in the source). */
  datatype ConfigError =
    | VariableNotSet      // API_KEYS is absent from the environment
    | NoKeysProvided      // the split produced no entry at all
    | TooFewKeys          // fewer than two keys: 403s could not be handled

  /** Number of occurrences of `c` in `s`. */
  function Count(s: string, c: char): nat
  {
    if s == [] then 0 else (if s[0] == c then 1 else 0) + Count(s[1..], c)
  }

  /**
    Go's `strings.Split(s, sep)` for a one-character separator: the pieces
    between separators, always at least one (the empty string gives [""]).
   */
  function Split(s: string, sep: char): (parts: seq<string>)
    ensures |parts| >= 1
  {
    if s == [] then [""]
    else
      var rest := Split(s[1..], sep);
      if s[0] == sep then [""] + rest
      else [[s[0]] + rest[0]] + rest[1..]
  }

  /** Go's `strings.Join(parts, sep)`. */
  function Join(parts: seq<string>, sep: char): string
    requires |parts| >= 1
  {
    if |parts| == 1 then parts[0] else parts[0] + [sep] + Join(parts[1..], sep)
  }

  /** Splitting and joining again gives back the original string. */
  lemma {:induction false} JoinSplit(s: string, sep: char)
    ensures Join(Split(s, sep), sep) == s
  {
    if s != [] {
      JoinSplit(s[1..], sep);
      var rest := Split(s[1..], sep);
      if s[0] != sep {
        if |rest| == 1 {
          assert Split(s, sep) == [[s[0]] + rest[0]];
        } else {
          assert Split(s, sep)[1..] == rest[1..];
        }
      } else {
        assert Split(s, sep)[1..] == rest;
      }
    }
  }

  /** No piece of a split contains the separator. */
  lemma {:induction false} SplitPartsHaveNoSeparator(s: string, sep: char)
    ensures forall i :: 0 <= i < |Split(s, sep)| ==> sep !in Split(s, sep)[i]
  {
    if s != [] {
      SplitPartsHaveNoSeparator(s[1..], sep);
    }
  }

  /** Joining separator-free pieces and splitting again gives back the pieces. */
  lemma {:induction false} SplitJoin(parts: seq<string>, sep: char)
    requires |parts| >= 1
    requires forall i :: 0 <= i < |parts| ==> sep !in parts[i]
    ensures Split(Join(parts, sep), sep) == parts
  {
    if |parts| == 1 {
      SplitOfSeparatorFree(parts[0], sep);
    } else {
      SplitJoin(parts[1..], sep);
      SplitPrefix(parts[0], Join(parts[1..], sep), sep);
    }
  }

  lemma {:induction false} SplitOfSeparatorFree(s: string, sep: char)
    requires sep !in s
    ensures Split(s, sep) == [s]
  {
    if s != [] {
      SplitOfSeparatorFree(s[1..], sep);
      assert [s[0]] + s[1..] == s;
    }
  }

  /** Splitting `p + [sep] + t`, where `p` is separator-free, puts `p` before the pieces of `t`. */
  lemma {:induction false} SplitPrefix(p: string, t: string, sep: char)
    requires sep !in p
    ensures Split(p + [sep] + t, sep) == [p] + Split(t, sep)
  {
    if p == [] {
      assert p + [sep] + t == [sep] + t;
      assert ([sep] + t)[1..] == t;
    } else {
      SplitPrefix(p[1..], t, sep);
      assert (p + [sep] + t)[1..] == p[1..] + [sep] + t;
      assert [p[0]] + p[1..] == p;
    }
  }

  /** A split yields one piece more than there are separators. */
  lemma {:induction false} SplitLength(s: string, sep: char)
    ensures |Split(s, sep)| == Count(s, sep) + 1
  {
    if s != [] {
      SplitLength(s[1..], sep);
    }
  }

  lemma {:induction false} CountPositive(s: string, c: char)
    ensures Count(s, c) > 0 <==> c in s
  {
    if s != [] {
      CountPositive(s[1..], c);
      assert s == [s[0]] + s[1..];
    }
  }

  /**
    `getAPIKeys`: split the variable on commas and insist on at least two
    keys. The key list is accepted exactly when the text contains a comma;
    the "no keys" error can never arise, since a split is never empty.
   */
  function GetAPIKeys(env: Option<string>): (r: Result<seq<string>, ConfigError>)
    ensures r.Success? <==> env.Some? && Separator in env.value
    ensures r.Success? ==> |r.value| >= 2 && Join(r.value, Separator) == env.value
    ensures r.Success? ==> forall i :: 0 <= i < |r.value| ==> Separator !in r.value[i]
    ensures r.Failure? ==> r.error != NoKeysProvided
    ensures env.Some? && r.Failure? ==> r.error == TooFewKeys
    ensures env.None? ==> r == Failure(VariableNotSet)
  {
    match env
    case None => Failure(VariableNotSet)
    case Some(text) =>
      var keys := Split(text, Separator);
      SplitLength(text, Separator);
      CountPositive(text, Separator);
      JoinSplit(text, Separator);
      SplitPartsHaveNoSeparator(text, Separator);
      if |keys| == 0 then Failure(NoKeysProvided)
      else if |keys| < 2 then Failure(TooFewKeys)
      else Success(keys)
  }

  /** The active index after `k` rotations starting from index `i` over `n` keys. */
  function Advance(i: nat, n: nat, k: nat): (r: nat)
    requires n > 0
    ensures i < n ==> r < n
    decreases k
  {
    if k == 0 then i else Advance((i + 1) % n, n, k - 1)
  }

  /** One rotation from a valid index: the next position, wrapping to 0 after the last. */
  lemma StepWraps(i: nat, n: nat)
    requires i < n
    ensures (i + 1) % n == if i + 1 < n then i + 1 else 0
  {
  }

  /** `a` rotations followed by `b` rotations are `a + b` rotations. */
  lemma {:induction false} AdvanceCompose(i: nat, n: nat, a: nat, b: nat)
    requires n > 0
    ensures Advance(i, n, a + b) == Advance(Advance(i, n, a), n, b)
    decreases a
  {
    if a > 0 {
      AdvanceCompose((i + 1) % n, n, a - 1, b);
    }
  }

  /**
    Within one cycle, `k` rotations from `i` land on `(i + k) mod n`,
    written without the modulus: `i + k`, or `i + k - n` once it wraps.
   */
  lemma {:induction false} AdvanceWithinCycle(i: nat, n: nat, k: nat)
    requires i < n && k <= n
    ensures Advance(i, n, k) == if i + k < n then i + k else i + k - n
    decreases k
  {
    if k > 0 {
      StepWraps(i, n);
      if i + 1 < n {
        AdvanceWithinCycle(i + 1, n, k - 1);
      } else {
        AdvanceWithinCycle(0, n, k - 1);
      }
    }
  }

  /** After exactly `n` rotations the index is back where it started. */
  lemma AdvanceFullCycle(i: nat, n: nat)
    requires i < n
    ensures Advance(i, n, n) == i
  {
    AdvanceWithinCycle(i, n, n);
  }

  /** Any number of rotations equals the rotations left over after whole cycles. */
  lemma {:induction false} AdvanceCycles(i: nat, n: nat, cycles: nat, k: nat)
    requires i < n
    ensures Advance(i, n, cycles * n + k) == Advance(i, n, k)
    decreases cycles
  {
    if cycles > 0 {
      calc {
        Advance(i, n, cycles * n + k);
        { assert cycles * n + k == n + ((cycles - 1) * n + k); AdvanceCompose(i, n, n, (cycles - 1) * n + k); }
        Advance(Advance(i, n, n), n, (cycles - 1) * n + k);
        { AdvanceFullCycle(i, n); }
        Advance(i, n, (cycles - 1) * n + k);
        { AdvanceCycles(i, n, cycles - 1, k); }
        Advance(i, n, k);
      }
    }
  }
}
