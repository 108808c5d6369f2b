/** The string utilities the two programs rely on: `str.lower`,
    `str.endswith`, `os.path.basename` and `str()` of a natural number. */
module Text {

  /** Lower-casing of one character. Only the ASCII letters are mapped;
      see README for why this is enough for the extension check. */
  function LowerChar(c: char): char
  {
    if 'A' <= c <= 'Z' then (c as int - 'A' as int + 'a' as int) as char else c
  }

  /** `s.lower()`: the string with every character lower-cased in place.
      No upper-case ASCII letter survives, and every other character is
      kept where it was. */
  function Lower(s: string): (r: string)
    ensures |r| == |s|
    ensures forall i :: 0 <= i < |r| ==> !('A' <= r[i] <= 'Z')
    ensures forall i :: 0 <= i < |s| && !('A' <= s[i] <= 'Z') ==> r[i] == s[i]
  {
    seq(|s|, i requires 0 <= i < |s| => LowerChar(s[i]))
  }

  /** Lower-casing commutes with taking a suffix. */
  lemma LowerSuffix(s: string, i: nat)
    requires i <= |s|
    ensures Lower(s[i..]) == Lower(s)[i..]
  {
    assert forall k :: 0 <= k < |s| - i ==> Lower(s[i..])[k] == Lower(s)[i..][k];
  }

  /** `s.endswith(suffix)`. */
  predicate EndsWith(s: string, suffix: string)
  {
    |suffix| <= |s| && s[|s| - |suffix|..] == suffix
  }

  /** `os.path.basename(path)` for POSIX paths: everything after the last
      '/', or the whole path when it holds no '/'. */
  function Basename(path: string): string
    decreases |path|
  {
    if |path| == 0 || path[|path| - 1] == '/' then ""
    else Basename(path[..|path| - 1]) + [path[|path| - 1]]
  }

  /** The base name is the longest suffix of the path free of '/': it holds
      no '/', it ends the path, and it is either the whole path or preceded
      by a '/'. */
  lemma {:induction false} BasenameIsLastComponent(path: string)
    ensures '/' !in Basename(path)
    ensures EndsWith(path, Basename(path))
    ensures |Basename(path)| == |path| || path[|path| - |Basename(path)| - 1] == '/'
    decreases |path|
  {
    if |path| > 0 && path[|path| - 1] != '/' {
      var prefix := path[..|path| - 1];
      BasenameIsLastComponent(prefix);
      var rest := Basename(prefix);
      assert Basename(path) == rest + [path[|path| - 1]];
      assert path == prefix + [path[|path| - 1]];
      assert path[|path| - |rest| - 1..] == prefix[|prefix| - |rest|..] + [path[|path| - 1]];
    }
  }

  /** The base name of a path whose last component is `name`. */
  lemma {:induction false} BasenameAfterSlash(dir: string, name: string)
    requires '/' !in name
    ensures Basename(dir + "/" + name) == name
    decreases |name|
  {
    var path := dir + "/" + name;
    if |name| > 0 {
      var init := name[..|name| - 1];
      assert path[..|path| - 1] == dir + "/" + init;
      assert '/' !in init by {
        forall k | 0 <= k < |init| ensures init[k] != '/' {
          assert init[k] == name[k];
        }
      }
      BasenameAfterSlash(dir, init);
      assert name == init + [name[|name| - 1]];
    }
  }

  /** A base name is its own base name. */
  lemma BasenameIdempotent(path: string)
    ensures Basename(Basename(path)) == Basename(path)
  {
    BasenameIsLastComponent(path);
    BasenameOfSlashFree(Basename(path));
  }

  /** A path without separators is its own base name. */
  lemma {:induction false} BasenameOfSlashFree(name: string)
    requires '/' !in name
    ensures Basename(name) == name
    decreases |name|
  {
    if |name| > 0 {
      var prefix := name[..|name| - 1];
      assert '/' !in prefix by {
        forall k | 0 <= k < |prefix| ensures prefix[k] != '/' {
          assert prefix[k] == name[k];
        }
      }
      BasenameOfSlashFree(prefix);
      assert name == prefix + [name[|name| - 1]];
    }
  }

  /** The character for a decimal digit. */
  function DigitChar(d: nat): char
    requires d < 10
  {
    ('0' as int + d) as char
  }

  /** The digit a character stands for (meaningful for '0'..'9' only). */
  function DigitValue(c: char): int
  {
    c as int - '0' as int
  }

  /** `str(n)` for a natural number: its decimal digits, most significant
      first, without leading zeros. */
  function Decimal(n: nat): (s: string)
    ensures |s| >= 1
    decreases n
  {
    if n < 10 then [DigitChar(n)] else Decimal(n / 10) + [DigitChar(n % 10)]
  }

  /** The value of a string of decimal digits. */
  function ParseDecimal(s: string): int
    decreases |s|
  {
    if |s| == 0 then 0 else ParseDecimal(s[..|s| - 1]) * 10 + DigitValue(s[|s| - 1])
  }

  /** Reading back the decimal form of `n` gives `n`. */
  lemma {:induction false} ParseDecimalOfDecimal(n: nat)
    ensures ParseDecimal(Decimal(n)) == n
    decreases n
  {
    var s := Decimal(n);
    if n < 10 {
      assert s[..|s| - 1] == [];
    } else {
      ParseDecimalOfDecimal(n / 10);
      assert s[..|s| - 1] == Decimal(n / 10);
    }
  }

  /** Different numbers have different decimal forms. */
  lemma DecimalInjective(a: nat, b: nat)
    requires Decimal(a) == Decimal(b)
    ensures a == b
  {
    ParseDecimalOfDecimal(a);
    ParseDecimalOfDecimal(b);
  }
}
