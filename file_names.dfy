/** The default path provider of the thread-aware allocator: a process-wide
    64-bit counter, post-incremented on every request, names the file
    `alloc_{counter:010}.mem` in a `stupidalloc` directory under the
    temporary directory. */
module FileNames {
  import opened Backing

  /** Values of a `u64` lie below this bound; `fetch_add` wraps at it. */
  const U64Limit: nat := 0x1_0000_0000_0000_0000

  /** The counter after a `fetch_add(1)` on a `u64`. */
  function NextCount(k: nat): (r: nat)
    requires k < U64Limit
    ensures r < U64Limit
    ensures k + 1 < U64Limit ==> r == k + 1
    ensures k + 1 == U64Limit ==> r == 0
  {
    (k + 1) % U64Limit
  }

  /** The counter value issued by the `i`-th request (from 0) when the
      counter starts at `k`. */
  function Issued(k: nat, i: nat): nat
  {
    (k + i) % U64Limit
  }

  /** How many requests after a start value `k` the counter value `v` is
      issued, counting modulo 2^64. */
  function Offset(k: nat, v: nat): (n: int)
    ensures k < U64Limit && v < U64Limit ==> 0 <= n < U64Limit
  {
    if v >= k then v - k else v + U64Limit - k
  }

  /** Before 2^64 requests, the `i`-th value issued from `k` lies `i`
      requests after `k`. */
  lemma OffsetOfIssued(k: nat, i: nat)
    requires k < U64Limit
    ensures Issued(k, i) < U64Limit
    ensures i < U64Limit ==> Offset(k, Issued(k, i)) == i
  {
    if k + i < U64Limit {
      assert Issued(k, i) == k + i;
    } else if i < U64Limit {
      assert Issued(k, i) == k + i - U64Limit;
    }
  }

  predicate IsDigit(c: char)
  {
    '0' <= c <= '9'
  }

  function DigitChar(d: nat): (c: char)
    requires d < 10
    ensures IsDigit(c)
  {
    (48 + d) as char
  }

  function DigitValue(c: char): (d: nat)
    requires IsDigit(c)
    ensures d < 10
  {
    (c as int) - 48
  }

  /** The decimal rendering of `n`, most significant digit first, without
      leading zeros. */
  function Decimal(n: nat): (s: string)
    ensures |s| >= 1
    ensures forall i :: 0 <= i < |s| ==> IsDigit(s[i])
  {
    if n < 10 then [DigitChar(n)] else Decimal(n / 10) + [DigitChar(n % 10)]
  }

  /** The number a string of decimal digits denotes. */
  function Value(s: string): nat
    requires forall i :: 0 <= i < |s| ==> IsDigit(s[i])
  {
    if s == [] then 0 else Value(s[..|s| - 1]) * 10 + DigitValue(s[|s| - 1])
  }

  /** `n` zero digits. */
  function ZeroDigits(n: nat): (z: string)
    ensures |z| == n
    ensures forall i :: 0 <= i < n ==> z[i] == '0'
  {
    seq(n, _ => '0')
  }

  /** `s` left-padded with `'0'` to at least `width` characters, as the
      `{:0width}` format does. */
  function ZeroPad(s: string, width: nat): (r: string)
    ensures |s| >= width ==> r == s
    ensures |s| < width ==> |r| == width && r[width - |s|..] == s
    ensures |s| < width ==> forall i :: 0 <= i < width - |s| ==> r[i] == '0'
  {
    if |s| >= width then s else ZeroDigits(width - |s|) + s
  }

  /** `dir` joined with a file name. */
  function Join(dir: Path, name: string): Path
  {
    dir + "/" + name
  }

  /** The file name issued for counter value `k`. */
  function AllocFileName(k: nat): string
  {
    "alloc_" + ZeroPad(Decimal(k), 10) + ".mem"
  }

  /** The path issued for counter value `k` under the temporary directory. */
  function AllocFilePath(tempDir: Path, k: nat): Path
  {
    Join(Join(tempDir, "stupidalloc"), AllocFileName(k))
  }

  /** Reading back the decimal rendering gives the number. */
  lemma {:induction false} ValueOfDecimal(n: nat)
    ensures Value(Decimal(n)) == n
  {
    if n >= 10 {
      var s := Decimal(n);
      assert s[..|s| - 1] == Decimal(n / 10);
      ValueOfDecimal(n / 10);
    }
  }

  /** A leading zero does not change the value. */
  lemma {:induction false} LeadingZero(s: string)
    requires forall i :: 0 <= i < |s| ==> IsDigit(s[i])
    ensures Value(['0'] + s) == Value(s)
  {
    if s != [] {
      var t := ['0'] + s;
      assert t[..|t| - 1] == ['0'] + s[..|s| - 1];
      LeadingZero(s[..|s| - 1]);
    }
  }

  /** Any number of leading zeros does not change the value. */
  lemma {:induction false} LeadingZeros(z: nat, s: string)
    requires forall i :: 0 <= i < |s| ==> IsDigit(s[i])
    ensures Value(ZeroDigits(z) + s) == Value(s)
  {
    if z > 0 {
      var t := ZeroDigits(z - 1) + s;
      assert ZeroDigits(z) + s == ['0'] + t;
      LeadingZeros(z - 1, s);
      LeadingZero(t);
    } else {
      assert ZeroDigits(z) + s == s;
    }
  }

  /** Reading back the zero-padded rendering gives the number. */
  lemma ValueOfPadded(n: nat, width: nat)
    ensures var r := ZeroPad(Decimal(n), width);
            (forall i :: 0 <= i < |r| ==> IsDigit(r[i])) && Value(r) == n
  {
    var s := Decimal(n);
    ValueOfDecimal(n);
    if |s| < width {
      LeadingZeros(width - |s|, s);
    }
  }

  /** An issued file name is `alloc_`, at least ten decimal digits that
      read back as the counter value, and `.mem`. */
  lemma AllocFileNameParts(k: nat)
    ensures var name := AllocFileName(k);
            && |name| >= 20
            && name[..6] == "alloc_" && name[|name| - 4..] == ".mem"
            && (forall i :: 6 <= i < |name| - 4 ==> IsDigit(name[i]))
            && Value(name[6..|name| - 4]) == k
  {
    var digits := ZeroPad(Decimal(k), 10);
    var name := AllocFileName(k);
    ValueOfPadded(k, 10);
    assert name == "alloc_" + digits + ".mem";
    assert name[6..|name| - 4] == digits;
    forall i | 6 <= i < |name| - 4
      ensures IsDigit(name[i])
    {
      assert name[i] == digits[i - 6];
    }
  }

  /** An issued path is the temporary directory, then `/stupidalloc/`,
      then the issued file name. */
  lemma AllocFilePathParts(tempDir: Path, k: nat)
    ensures var path := AllocFilePath(tempDir, k);
            && path[..|tempDir|] == tempDir
            && path[|tempDir|..|tempDir| + 13] == "/stupidalloc/"
            && path[|tempDir| + 13..] == AllocFileName(k)
  {
    var path := AllocFilePath(tempDir, k);
    assert path == tempDir + "/stupidalloc/" + AllocFileName(k);
  }

  /** Two issued paths are equal only for equal counter values: the path
      provider never hands out one file name for two counter values. */
  lemma AllocFilePathInjective(tempDir: Path, j: nat, k: nat)
    ensures AllocFilePath(tempDir, j) == AllocFilePath(tempDir, k) <==> j == k
  {
    if AllocFilePath(tempDir, j) == AllocFilePath(tempDir, k) {
      var prefix := tempDir + "/" + "stupidalloc" + "/" + "alloc_";
      var mj, mk := ZeroPad(Decimal(j), 10), ZeroPad(Decimal(k), 10);
      assert AllocFilePath(tempDir, j) == prefix + mj + ".mem";
      assert AllocFilePath(tempDir, k) == prefix + mk + ".mem";
      assert |mj| == |mk|;
      assert mj == (prefix + mj + ".mem")[|prefix|..|prefix| + |mj|];
      assert mk == (prefix + mk + ".mem")[|prefix|..|prefix| + |mk|];
      ValueOfPadded(j, 10);
      ValueOfPadded(k, 10);
    }
  }

  /** Fewer than 2^64 successive requests starting from any counter value
      yield pairwise distinct paths. */
  lemma IssuedPathsDistinct(tempDir: Path, k: nat, i: nat, j: nat)
    requires k < U64Limit
    requires i < j < U64Limit
    ensures AllocFilePath(tempDir, Issued(k, i)) != AllocFilePath(tempDir, Issued(k, j))
  {
    AllocFilePathInjective(tempDir, Issued(k, i), Issued(k, j));
    if k + j < U64Limit {
      assert Issued(k, i) == k + i && Issued(k, j) == k + j;
    } else if k + i < U64Limit {
      assert Issued(k, i) == k + i && Issued(k, j) == k + j - U64Limit;
    } else {
      assert Issued(k, i) == k + i - U64Limit && Issued(k, j) == k + j - U64Limit;
    }
  }

  /** The counter after `i` requests is the `i`-th issued value: issuing
      follows `NextCount`. */
  lemma {:induction false} IssuedStep(k: nat, i: nat)
    requires k < U64Limit
    ensures Issued(k, i) < U64Limit
    ensures Issued(k, i + 1) == NextCount(Issued(k, i))
  {
    var q := (k + i) / U64Limit;
    assert k + i == q * U64Limit + Issued(k, i);
    assert k + i + 1 == q * U64Limit + (Issued(k, i) + 1);
    if Issued(k, i) + 1 < U64Limit {
      assert Issued(k, i + 1) == Issued(k, i) + 1;
    } else {
      assert k + i + 1 == (q + 1) * U64Limit;
    }
  }
}
