/** `VercelService.generateProjectName` of `api/utils/vercel.ts`: the chain of
    rewrites that turns an uploaded file's name into a hosting project name.
    The clock reading `Date.now()` is passed in as `now`. */
module ProjectName {
  import opened Strings

  /** The characters `[a-z0-9-]` a project name is made of. */
  predicate NameChar(c: char)
  {
    IsLowerLetter(c) || IsDigit(c) || c == '-'
  }

  predicate AllNameChars(s: string)
  {
    forall i :: 0 <= i < |s| ==> NameChar(s[i])
  }

  /** No two dashes in a row. */
  predicate NoDoubleDash(s: string)
  {
    forall i :: 0 <= i < |s| - 1 ==> !(s[i] == '-' && s[i + 1] == '-')
  }

  /** Empty, or neither starting nor ending with a dash. */
  predicate DashFreeEnds(s: string)
  {
    s == [] || (s[0] != '-' && s[|s| - 1] != '-')
  }

  const MaxBaseLength: nat := 63

  /** The characters of `s` other than dashes, in order. */
  function RemoveDashes(s: string): string
  {
    if s == [] then [] else (if s[0] == '-' then [] else [s[0]]) + RemoveDashes(s[1..])
  }

  lemma {:induction false} RemoveDashesConcat(a: string, b: string)
    ensures RemoveDashes(a + b) == RemoveDashes(a) + RemoveDashes(b)
  {
    if a != [] {
      assert (a + b)[1..] == a[1..] + b;
      RemoveDashesConcat(a[1..], b);
    } else {
      assert a + b == b;
    }
  }

  lemma RemoveDashesCons(c: char, s: string)
    ensures RemoveDashes([c] + s) == (if c == '-' then [] else [c]) + RemoveDashes(s)
  {
    assert ([c] + s)[1..] == s;
  }

  /** A dash dropped from the end leaves the other characters as they were. */
  lemma RemoveDashesOfDroppedDash(s: string)
    requires |s| > 0 && s[|s| - 1] == '-'
    ensures RemoveDashes(s[..|s| - 1]) == RemoveDashes(s)
  {
    assert s == s[..|s| - 1] + [s[|s| - 1]];
    RemoveDashesConcat(s[..|s| - 1], [s[|s| - 1]]);
  }

  // ---------------------------------------------------------------------------
  // The rewriting steps
  // ---------------------------------------------------------------------------

  /** `.replace(/[^a-z0-9-]/g, '-')`. */
  function ReplaceInvalid(s: string): (r: string)
    ensures |r| == |s| && AllNameChars(r)
    ensures forall i :: 0 <= i < |s| && NameChar(s[i]) ==> r[i] == s[i]
    ensures forall i :: 0 <= i < |s| && !NameChar(s[i]) ==> r[i] == '-'
  {
    if s == [] then [] else [if NameChar(s[0]) then s[0] else '-'] + ReplaceInvalid(s[1..])
  }

  /** `.replace(/-+/g, '-')`: each run of dashes becomes one dash. Only dashes
      are dropped, and the first and last characters stay. */
  function CollapseDashes(s: string): (r: string)
    ensures NoDoubleDash(r)
    ensures |r| <= |s|
    ensures RemoveDashes(r) == RemoveDashes(s)
    ensures AllNameChars(s) ==> AllNameChars(r)
    ensures |s| > 0 ==> |r| > 0 && r[0] == s[0] && r[|r| - 1] == s[|s| - 1]
  {
    if |s| <= 1 then s
    else if s[0] == '-' && s[1] == '-' then CollapseDashes(s[1..])
    else
      var rest := CollapseDashes(s[1..]);
      RemoveDashesCons(s[0], rest);
      [s[0]] + rest
  }

  /** A run of two dashes collapses like a single dash: with
      `CollapseKeepsCollapsed` this pins the collapse down, since every run
      shrinks to exactly one dash. */
  lemma {:induction false} CollapseDoubleDash(a: string, b: string)
    ensures CollapseDashes(a + "--" + b) == CollapseDashes(a + "-" + b)
    decreases |a|
  {
    var s, t := a + "--" + b, a + "-" + b;
    if a == [] {
      assert s == "--" + b && s[1..] == t;
    } else {
      assert s[0] == t[0] == a[0];
      assert s[1..] == a[1..] + "--" + b;
      assert t[1..] == a[1..] + "-" + b;
      assert s[1] == t[1];
      CollapseDoubleDash(a[1..], b);
    }
  }

  /** A string without a run of dashes is left as it is by the collapse. */
  lemma {:induction false} CollapseKeepsCollapsed(s: string)
    requires NoDoubleDash(s)
    ensures CollapseDashes(s) == s
  {
    if |s| > 1 {
      CollapseKeepsCollapsed(s[1..]);
      assert [s[0]] + s[1..] == s;
    }
  }

  /** `r` is `s` without its first `a` and last `b` characters, where `a` is 1
      exactly when `s` starts with a dash and `b` is 1 exactly when what is
      left ends with one. */
  predicate EndsDropped(s: string, r: string, a: int, b: int)
  {
    && 0 <= a <= 1 && 0 <= b <= 1 && a + b <= |s| && r == s[a..|s| - b]
    && (a == 1 <==> |s| > 0 && s[0] == '-')
    && (b == 1 <==> |s| - a > 0 && s[|s| - 1] == '-')
  }

  /** `.replace(/^-|-$/g, '')`: one leading and one trailing dash go. */
  function StripDashEnds(s: string): (r: string)
    ensures NoDoubleDash(s) ==> NoDoubleDash(r) && DashFreeEnds(r)
    ensures AllNameChars(s) ==> AllNameChars(r)
    ensures |s| - 2 <= |r| <= |s|
    ensures RemoveDashes(r) == RemoveDashes(s)
    ensures DashFreeEnds(s) ==> r == s
    ensures exists a, b :: EndsDropped(s, r, a, b)
  {
    var a := if |s| > 0 && s[0] == '-' then 1 else 0;
    var t := s[a..];
    assert RemoveDashes(t) == RemoveDashes(s);
    if |t| > 0 && t[|t| - 1] == '-' then
      RemoveDashesOfDroppedDash(t);
      assert t[..|t| - 1] == s[a..|s| - 1];
      assert EndsDropped(s, t[..|t| - 1], a, 1);
      t[..|t| - 1]
    else
      assert t == s[a..|s| - 0];
      assert EndsDropped(s, t, a, 0);
      t
  }

  /** The first statement of `generateProjectName`: lower-case, map invalid
      characters to dashes, collapse dash runs, strip the ends. */
  function Normalize(original: string): (r: string)
    ensures AllNameChars(r) && NoDoubleDash(r) && DashFreeEnds(r)
  {
    StripDashEnds(CollapseDashes(ReplaceInvalid(Lower(original))))
  }

  /** A string already made of `[a-z0-9-]`, free of dash runs and of dashes at
      its ends, normalises to itself. */
  lemma NormalizeKeepsCleanNames(name: string)
    requires AllNameChars(name) && NoDoubleDash(name) && DashFreeEnds(name)
    ensures Normalize(name) == name
  {
    calc {
      Normalize(name);
      StripDashEnds(CollapseDashes(ReplaceInvalid(Lower(name))));
      { LowercaseNameKept(name); }
      StripDashEnds(CollapseDashes(ReplaceInvalid(name)));
      { ValidCharsKept(name); }
      StripDashEnds(CollapseDashes(name));
      { CollapseKeepsCollapsed(name); }
      StripDashEnds(name);
    }
  }

  lemma LowercaseNameKept(name: string)
    requires AllNameChars(name)
    ensures Lower(name) == name
  {
    assert forall i :: 0 <= i < |name| ==> !IsUpperLetter(name[i]);
    LowerOfLowercase(name);
  }

  lemma ValidCharsKept(name: string)
    requires AllNameChars(name)
    ensures ReplaceInvalid(name) == name
  {
    assert forall i :: 0 <= i < |name| ==> ReplaceInvalid(name)[i] == name[i];
  }

  /** Normalising twice is normalising once. */
  lemma NormalizeIdempotent(original: string)
    ensures Normalize(Normalize(original)) == Normalize(original)
  {
    NormalizeKeepsCleanNames(Normalize(original));
  }

  /** `if (!/^[a-z]/.test(name)) name = \`site-${name}\``. The result starts
      with a lower-case letter; it is the name itself exactly when the name
      already did, and otherwise the name behind the prefix `site-`. */
  function EnsureLetterStart(name: string): (r: string)
    ensures |r| >= 1 && IsLowerLetter(r[0])
    ensures r == name || r == "site-" + name
    ensures r == name <==> |name| > 0 && IsLowerLetter(name[0])
  {
    if |name| > 0 && IsLowerLetter(name[0]) then name else "site-" + name
  }

  /** `.replace(/-$/, '')`. */
  function DropTrailingDash(s: string): (r: string)
    ensures IsPrefix(r, s) && |s| - 1 <= |r|
    ensures r == s <==> s == [] || s[|s| - 1] != '-'
  {
    if |s| > 0 && s[|s| - 1] == '-' then s[..|s| - 1] else s
  }

  /** `if (name.length > 63) name = name.substring(0, 63).replace(/-$/, '')`.
      The result is a prefix of the name of at most 63 characters; a name that
      fits is kept, and a longer one loses at most one more character than
      the cut. */
  function Truncate(name: string): (r: string)
    ensures IsPrefix(r, name) && |r| <= MaxBaseLength
    ensures |name| <= MaxBaseLength ==> r == name
    ensures |name| > MaxBaseLength ==> |r| >= MaxBaseLength - 1
    ensures |name| > MaxBaseLength ==> (|r| == MaxBaseLength <==> name[MaxBaseLength - 1] != '-')
  {
    if |name| > MaxBaseLength then DropTrailingDash(name[..MaxBaseLength]) else name
  }


  /** The project name without its timestamp suffix. It is made of
      `[a-z0-9-]`, starts with a lower-case letter, has at most 63 characters,
      and does not end in a dash when it was cut to length. */
  function BaseName(original: string): (base: string)
    ensures AllNameChars(base)
    ensures |base| >= 1 && IsLowerLetter(base[0])
    ensures |base| <= MaxBaseLength
    ensures |EnsureLetterStart(Normalize(original))| > MaxBaseLength ==> base[|base| - 1] != '-'
  {
    var normalized := Normalize(original);
    PrefixedShape(normalized);
    var prefixed := EnsureLetterStart(normalized);
    TruncateShape(prefixed);
    Truncate(prefixed)
  }

  /** Adding the `site-` prefix keeps the name free of dash runs, and the
      result starts with a lower-case letter. */
  lemma PrefixedShape(normalized: string)
    requires AllNameChars(normalized) && NoDoubleDash(normalized) && DashFreeEnds(normalized)
    ensures var p := EnsureLetterStart(normalized);
      AllNameChars(p) && NoDoubleDash(p) && |p| >= 1 && IsLowerLetter(p[0])
  {
    var p := EnsureLetterStart(normalized);
    if p != normalized {
      assert p == "site-" + normalized;
      forall i | 0 <= i < |p| - 1
        ensures !(p[i] == '-' && p[i + 1] == '-')
      {
        if i >= 5 {
          assert p[i] == normalized[i - 5] && p[i + 1] == normalized[i - 4];
        }
      }
    }
  }

  /** Cutting to 63 characters keeps the first letter, and since the name has
      no dash run, dropping one trailing dash leaves no dash at the end. */
  lemma TruncateShape(p: string)
    requires AllNameChars(p) && NoDoubleDash(p) && |p| >= 1 && IsLowerLetter(p[0])
    ensures var t := Truncate(p);
      && AllNameChars(t) && |t| >= 1 && IsLowerLetter(t[0]) && |t| <= MaxBaseLength
      && (|p| > MaxBaseLength ==> t[|t| - 1] != '-')
  {
    if |p| > MaxBaseLength {
      var cut := p[..MaxBaseLength];
      assert forall i :: 0 <= i < |cut| ==> cut[i] == p[i];
      assert !(p[MaxBaseLength - 2] == '-' && p[MaxBaseLength - 1] == '-');
      if cut[MaxBaseLength - 1] == '-' {
        var t := cut[..MaxBaseLength - 1];
        assert t[|t| - 1] == cut[MaxBaseLength - 2];
      }
    }
  }

  /** A name that is already a valid base (clean, starting with a letter, at
      most 63 characters) is kept as it is. */
  lemma BaseNameKeepsValidNames(name: string)
    requires AllNameChars(name) && NoDoubleDash(name) && DashFreeEnds(name)
    requires |name| >= 1 && IsLowerLetter(name[0]) && |name| <= MaxBaseLength
    ensures BaseName(name) == name
  {
    NormalizeKeepsCleanNames(name);
  }

  // ---------------------------------------------------------------------------
  // The timestamp suffix
  // ---------------------------------------------------------------------------

  /** `s.slice(-k)` for `k >= 1`: the last `k` characters, or all of `s` when
      it is shorter. (`slice(-0)` would keep the whole string; here `k == 0`
      gives the empty string, which only the induction in `LastDigitsValue`
      uses.) */
  function Last(s: string, k: nat): (t: string)
    ensures |t| == if |s| <= k then |s| else k
    ensures t == s[|s| - |t|..]
  {
    if |s| <= k then s else s[|s| - k..]
  }

  function Pow10(k: nat): (p: nat)
    ensures p >= 1
  {
    if k == 0 then 1 else 10 * Pow10(k - 1)
  }

  lemma {:induction false} PowMonotone(j: nat, k: nat)
    requires j <= k
    ensures Pow10(j) <= Pow10(k)
  {
    if j < k {
      PowMonotone(j, k - 1);
    }
  }

  lemma SmallMultiple(m: int, d: int)
    requires m > 0 && -m < m * d < m
    ensures d == 0
  {
  }

  /** Euclidean remainders are unique. */
  lemma ModUnique(n: int, m: int, q: int, r: int)
    requires m > 0 && n == m * q + r && 0 <= r < m
    ensures n % m == r
  {
    var q', r' := n / m, n % m;
    assert n == m * q' + r';
    assert m * (q - q') == m * q - m * q';
    SmallMultiple(m, q - q');
  }

  /** Appending a digit `c` to `x` and keeping the last `k + 1` digits is
      keeping the last `k` digits of `x` and appending `c`, in arithmetic. */
  lemma ModTenStep(x: nat, c: nat, p: nat)
    requires p > 0 && c < 10
    ensures (x * 10 + c) % (10 * p) == (x % p) * 10 + c
  {
    var q, r := x / p, x % p;
    assert x == p * q + r;
    assert x * 10 + c == (10 * p) * q + (r * 10 + c);
    ModUnique(x * 10 + c, 10 * p, q, r * 10 + c);
  }

  lemma LastSnoc(s: string, c: char, k: nat)
    requires k >= 1
    ensures Last(s + [c], k) == Last(s, k - 1) + [c]
  {
  }

  lemma DigitsValueSnoc(ds: string, c: char)
    requires AllDigits(ds) && IsDigit(c)
    ensures DigitsValue(ds + [c]) == DigitsValue(ds) * 10 + DigitValue(c)
  {
    assert (ds + [c])[..|ds|] == ds;
  }

  /** The last `k` characters of a digit string denote its value modulo `10^k`. */
  lemma {:induction false} LastDigitsValue(s: string, k: nat)
    requires AllDigits(s)
    ensures AllDigits(Last(s, k))
    ensures DigitsValue(Last(s, k)) == DigitsValue(s) % Pow10(k)
    decreases |s|
  {
    if k == 0 {
      assert Last(s, k) == [];
      assert Pow10(k) == 1;
    } else if s == [] {
      ModUnique(0, Pow10(k), 0, 0);
    } else {
      var init, c := s[..|s| - 1], s[|s| - 1];
      assert s == init + [c];
      LastDigitsValue(init, k - 1);
      LastDigitsSnoc(init, c, k);
    }
  }

  /** The inductive step of `LastDigitsValue`: one more digit at the end. */
  lemma {:induction false} LastDigitsSnoc(init: string, c: char, k: nat)
    requires AllDigits(init) && IsDigit(c) && k >= 1
    requires DigitsValue(Last(init, k - 1)) == DigitsValue(init) % Pow10(k - 1)
    ensures AllDigits(Last(init + [c], k))
    ensures DigitsValue(Last(init + [c], k)) == DigitsValue(init + [c]) % Pow10(k)
  {
    LastSnoc(init, c, k);
    var t := Last(init, k - 1);
    DigitsOfLast(init, k - 1);
    DigitsSnoc(t, c);
    var x, dc, p := DigitsValue(init), DigitValue(c), Pow10(k - 1);
    calc {
      DigitsValue(Last(init + [c], k));
      DigitsValue(t + [c]);
      { DigitsValueSnoc(t, c); }
      DigitsValue(t) * 10 + dc;
      (x % p) * 10 + dc;
      { ModTenStep(x, dc, p); }
      (x * 10 + dc) % (10 * p);
      { DigitsValueSnoc(init, c); }
      DigitsValue(init + [c]) % (10 * p);
    }
  }

  lemma DigitsOfLast(s: string, k: nat)
    requires AllDigits(s)
    ensures AllDigits(Last(s, k))
  {
    var t := Last(s, k);
    assert forall i :: 0 <= i < |t| ==> t[i] == s[|s| - |t| + i];
  }

  lemma DigitsSnoc(t: string, c: char)
    requires AllDigits(t) && IsDigit(c)
    ensures AllDigits(t + [c])
  {
    assert forall i :: 0 <= i < |t| ==> (t + [c])[i] == t[i];
  }

  lemma SixDigitPowers()
    ensures Pow10(5) == 100000 && Pow10(6) == 1000000
  {
    assert Pow10(1) == 10;
    assert Pow10(3) == 1000;
  }

  /** A string of `m` digits denotes a number below `10^m`. */
  lemma {:induction false} DigitsValueBound(ds: string)
    requires AllDigits(ds)
    ensures DigitsValue(ds) < Pow10(|ds|)
    decreases |ds|
  {
    if ds != [] {
      DigitsValueBound(ds[..|ds| - 1]);
    }
  }

  /** `Date.now().toString().slice(-6)`: one to six digits, denoting the clock
      reading modulo one million; exactly six once the reading has six digits. */
  lemma TimestampSuffix(now: nat)
    ensures var t := Last(NatToString(now), 6);
      1 <= |t| <= 6 && AllDigits(t) && DigitsValue(t) == now % 1000000
    ensures now >= 100000 ==> |Last(NatToString(now), 6)| == 6
    ensures now < 1000000 ==> Last(NatToString(now), 6) == NatToString(now)
  {
    var s := NatToString(now);
    LastDigitsValue(s, 6);
    DigitsValueOfNatToString(now);
    SixDigitPowers();
    if now >= 100000 && |s| < 6 {
      DigitsValueBound(s);
      PowMonotone(|s|, 5);
    }
    if now < 1000000 {
      NatToStringLength(now, 6);
    }
  }

  /** A number below `10^k` has at most `k` decimal digits. */
  lemma {:induction false} NatToStringLength(n: nat, k: nat)
    requires k >= 1 && n < Pow10(k)
    ensures |NatToString(n)| <= k
    decreases k
  {
    if n >= 10 && k >= 2 {
      assert n / 10 < Pow10(k - 1);
      NatToStringLength(n / 10, k - 1);
    }
  }

  // ---------------------------------------------------------------------------
  // generateProjectName
  // ---------------------------------------------------------------------------

  /** `generateProjectName(originalName)` at clock reading `now`: the base
      name, a dash, and one to six timestamp digits that denote `now` modulo
      one million. All of it is in `[a-z0-9-]` and it starts with a
      lower-case letter. */
  function GenerateProjectName(original: string, now: nat): (r: string)
    ensures var base := BaseName(original);
      && |base| + 2 <= |r| <= |base| + 7
      && r[..|base|] == base && r[|base|] == '-'
      && AllDigits(r[|base| + 1..]) && DigitsValue(r[|base| + 1..]) == now % 1000000
      && AllNameChars(r) && IsLowerLetter(r[0])
    ensures r[|BaseName(original)| + 1..] == Last(NatToString(now), 6)
    ensures now >= 100000 ==> |r| == |BaseName(original)| + 7
    ensures now < 1000000 ==> r[|BaseName(original)| + 1..] == NatToString(now)
  {
    TimestampSuffix(now);
    JoinShape(BaseName(original), Last(NatToString(now), 6));
    BaseName(original) + "-" + Last(NatToString(now), 6)
  }

  /** A name-character string starting with a letter, a dash, and a digit
      string together form a name-character string starting with that letter. */
  lemma JoinShape(base: string, t: string)
    requires AllNameChars(base) && |base| >= 1 && IsLowerLetter(base[0]) && AllDigits(t)
    ensures var r := base + "-" + t;
      && r[..|base|] == base && r[|base|] == '-' && r[|base| + 1..] == t
      && AllNameChars(r) && IsLowerLetter(r[0])
  {
    var r := base + "-" + t;
    assert r[..|base|] == base;
    assert r[|base| + 1..] == t;
    forall i | 0 <= i < |r|
      ensures NameChar(r[i])
    {
      if i < |base| {
        assert r[i] == base[i];
      } else if i > |base| {
        assert r[i] == t[i - |base| - 1];
      }
    }
  }

  /** A name that normalises to nothing gets the base `site-`, so the result
      reads `site--` followed by the timestamp digits. */
  lemma EmptyNormalizationGivesSite(original: string, now: nat)
    requires Normalize(original) == ""
    ensures BaseName(original) == "site-"
    ensures GenerateProjectName(original, now) == "site--" + Last(NatToString(now), 6)
  {
    EmptyNormalizationBase(original);
    var suffix := Last(NatToString(now), 6);
    assert GenerateProjectName(original, now) == "site-" + "-" + suffix;
    SiteDashes(suffix);
  }

  lemma SiteDashes(suffix: string)
    ensures "site-" + "-" + suffix == "site--" + suffix
  {
  }

  lemma EmptyNormalizationBase(original: string)
    requires Normalize(original) == ""
    ensures BaseName(original) == "site-"
  {
    var prefixed := EnsureLetterStart(Normalize(original));
    assert prefixed == "site-" + "" == "site-";
    assert Truncate(prefixed) == prefixed;
  }
}
