/**
 * Where a guide goes in the document (index.js:16, index.js:170-190, index.js:284):
 * the first usable order key of its frontmatter, else the number that starts
 * its file name, else nothing (sorted last).
 */
module OrderResolution {
  import opened Wrappers
  import opened JsText
  import opened JsNumber

  /** The frontmatter keys that can carry an order, highest priority first. */
  const OrderKeys: seq<string> := ["order", "weight", "sidebar_position", "position"]

  /** `Number(String(fm[key]).trim())` when `key` is present and that number is finite. */
  function KeyOrder(fm: map<string, string>, key: string): Option<real> {
    if key in fm then FiniteNumber(Trim(fm[key])) else None
  }

  /** The order of the first key of `keys` that is present with a finite number. */
  function OrderFrom(fm: map<string, string>, keys: seq<string>): Option<real>
    decreases |keys|
  {
    if keys == [] then None
    else if KeyOrder(fm, keys[0]).Some? then KeyOrder(fm, keys[0])
    else OrderFrom(fm, keys[1..])
  }

  /** `extractOrder`: walks the priority list and returns at the first usable key. */
  method ExtractOrder(fm: map<string, string>) returns (r: Option<real>)
    ensures r == OrderFrom(fm, OrderKeys)
  {
    var i := 0;
    while i < |OrderKeys|
      invariant 0 <= i <= |OrderKeys|
      invariant OrderFrom(fm, OrderKeys[i..]) == OrderFrom(fm, OrderKeys)
    {
      var key := OrderKeys[i];
      assert OrderKeys[i..][1..] == OrderKeys[i + 1..];
      if key in fm {
        var value := FiniteNumber(Trim(fm[key]));
        if value.Some? {
          return value;
        }
      }
      i := i + 1;
    }
    return None;
  }

  /**
   * The order comes from the first usable key: every key before it is absent
   * or not a finite number, and no order at all means no key is usable.
   */
  lemma {:induction false} OrderFromFirstUsable(fm: map<string, string>, keys: seq<string>)
    ensures OrderFrom(fm, keys).None? <==> forall i :: 0 <= i < |keys| ==> KeyOrder(fm, keys[i]).None?
    ensures OrderFrom(fm, keys).Some? ==>
      exists i ::
        && 0 <= i < |keys|
        && OrderFrom(fm, keys) == KeyOrder(fm, keys[i])
        && (forall j :: 0 <= j < i ==> KeyOrder(fm, keys[j]).None?)
    decreases |keys|
  {
    if keys != [] {
      OrderFromFirstUsable(fm, keys[1..]);
      if KeyOrder(fm, keys[0]).None? {
        if OrderFrom(fm, keys).Some? {
          var i :| 0 <= i < |keys[1..]| && OrderFrom(fm, keys[1..]) == KeyOrder(fm, keys[1..][i])
            && forall j :: 0 <= j < i ==> KeyOrder(fm, keys[1..][j]).None?;
          assert forall j :: 0 <= j < i + 1 ==> KeyOrder(fm, keys[j]).None? by {
            forall j | 0 <= j < i + 1 ensures KeyOrder(fm, keys[j]).None? {
              if j > 0 {
                assert keys[j] == keys[1..][j - 1];
              }
            }
          }
          assert keys[i + 1] == keys[1..][i];
        } else {
          forall i | 0 <= i < |keys| ensures KeyOrder(fm, keys[i]).None? {
            if i > 0 {
              assert keys[i] == keys[1..][i - 1];
            }
          }
        }
      }
    }
  }

  /** A usable key with no usable key before it decides the order, whatever comes after. */
  lemma {:induction false} OrderFromHigherPriorityWins(fm: map<string, string>, keys: seq<string>, i: nat)
    requires i < |keys| && KeyOrder(fm, keys[i]).Some?
    requires forall j :: 0 <= j < i ==> KeyOrder(fm, keys[j]).None?
    ensures OrderFrom(fm, keys) == KeyOrder(fm, keys[i])
    decreases i
  {
    if i > 0 {
      forall j | 0 <= j < i - 1 ensures KeyOrder(fm, keys[1..][j]).None? {
        assert keys[1..][j] == keys[j + 1];
      }
      assert keys[1..][i - 1] == keys[i];
      OrderFromHigherPriorityWins(fm, keys[1..], i - 1);
    }
  }

  // ---------------------------------------------------------------------------
  // The file-name prefix.

  /** `p` without the `/` characters at its end. */
  function StripTrailingSlashes(p: string): (r: string)
    ensures |r| <= |p| && (r == [] || r[|r| - 1] != '/')
    decreases |p|
  {
    if p != [] && p[|p| - 1] == '/' then StripTrailingSlashes(p[..|p| - 1]) else p
  }

  /** The part of `p` after its last `/` (all of `p` when it has none). */
  function LastSegment(p: string): (r: string)
    ensures '/' !in r
    decreases |p|
  {
    if p == [] || p[|p| - 1] == '/' then [] else LastSegment(p[..|p| - 1]) + [p[|p| - 1]]
  }

  /** `path.basename` with POSIX separators: the last segment, trailing slashes ignored. */
  function Basename(p: string): (r: string)
    ensures '/' !in r
  {
    LastSegment(StripTrailingSlashes(p))
  }

  /** The last segment is what follows the last `/`, or all of a name without one. */
  lemma {:induction false} LastSegmentOfName(prefix: string, name: string)
    requires '/' !in name && (prefix == [] || prefix[|prefix| - 1] == '/')
    ensures LastSegment(prefix + name) == name
    decreases |name|
  {
    if name != [] {
      var init := name[..|name| - 1];
      assert (prefix + name)[..|prefix + name| - 1] == prefix + init;
      assert name[|name| - 1] in name;
      LastSegmentOfName(prefix, init);
      assert init + [name[|name| - 1]] == name;
    } else {
      assert prefix + name == prefix;
    }
  }

  /** The segment after the last separator is the base name, whatever directories come first. */
  lemma BasenameOfJoin(dir: string, name: string)
    requires '/' !in name && name != []
    ensures Basename(dir + "/" + name) == name
    ensures Basename(name) == name
  {
    assert (dir + "/" + name)[|dir + "/" + name| - 1] == name[|name| - 1];
    assert name[|name| - 1] in name;
    LastSegmentOfName(dir + "/", name);
    LastSegmentOfName([], name);
    assert [] + name == name;
  }

  /** A digit run followed by `-`, `_`, a space or `.`: what `^(\d+)[-_ .]` needs. */
  predicate IsPrefixSeparator(c: char) {
    c == '-' || c == '_' || c == ' ' || c == '.'
  }

  /** `^(\d+)[-_ .]` on a base name, then `Number` of the digits. */
  function BasePrefix(base: string): Option<real> {
    var n := DigitRun(base, 0);
    if 0 < n < |base| && IsPrefixSeparator(base[n]) then FiniteNumber(base[..n]) else None
  }

  /** `extractNumericPrefix`: the number that starts the base name of `p`. */
  function NumericPrefix(p: string): Option<real> {
    BasePrefix(Basename(p))
  }

  /** A digit run followed by a separator is the whole leading run of digits. */
  lemma PrefixRunIsLeadingRun(base: string, m: nat)
    requires 0 < m < |base| && AllDigits(base[..m]) && IsPrefixSeparator(base[m])
    ensures m == DigitRun(base, 0)
  {
    var n := DigitRun(base, 0);
    assert base[0..n] == base[..n];
  }

  /**
   * The prefix exists exactly when the base name starts with digits and then a
   * separator, and it is the number those digits spell. The greedy `\d+` never
   * has to back off, because a shorter run would be followed by a digit.
   */
  lemma BasePrefixMeans(base: string)
    ensures BasePrefix(base).Some? <==>
      exists n :: 0 < n < |base| && AllDigits(base[..n]) && IsPrefixSeparator(base[n])
    ensures forall n :: 0 < n < |base| && AllDigits(base[..n]) && IsPrefixSeparator(base[n]) ==>
      BasePrefix(base) == Some(DigitsValue(base[..n]) as real)
  {
    var n := DigitRun(base, 0);
    assert base[0..n] == base[..n];
    forall m | 0 < m < |base| && AllDigits(base[..m]) && IsPrefixSeparator(base[m])
      ensures BasePrefix(base) == Some(DigitsValue(base[..m]) as real)
    {
      PrefixRunIsLeadingRun(base, m);
      FiniteNumberOfDigits(base[..m]);
    }
  }

  /** The prefix is read from the base name only: directories never matter. */
  lemma NumericPrefixIgnoresDirectory(dir: string, name: string)
    requires '/' !in name && name != []
    ensures NumericPrefix(dir + "/" + name) == NumericPrefix(name)
  {
    BasenameOfJoin(dir, name);
  }

  /** A name spelled as a number, a separator and anything else reads back as that number. */
  lemma NumericPrefixRoundTrip(n: nat, sep: char, rest: string)
    requires IsPrefixSeparator(sep) && '/' !in rest
    ensures NumericPrefix(DecimalString(n) + [sep] + rest) == Some(n as real)
  {
    var d := DecimalString(n);
    var name := d + [sep] + rest;
    assert '/' !in name;
    BasenameOfJoin([], name);
    assert name[..|d|] == d;
    BasePrefixMeans(name);
    DecimalStringValue(n);
  }

  /** A base name that does not start with a digit has no numeric prefix. */
  lemma NumericPrefixNeedsDigit(p: string)
    requires Basename(p) == [] || !IsDigit(Basename(p)[0])
    ensures NumericPrefix(p).None?
  {
    var base := Basename(p);
    BasePrefixMeans(base);
    forall n | 0 < n < |base| && IsPrefixSeparator(base[n])
      ensures !AllDigits(base[..n])
    {
      assert base[..n][0] == base[0];
    }
  }

  /**
   * `extractOrder(frontmatterData) ?? extractNumericPrefix(entry.path)`: the
   * frontmatter decides whenever it has a usable key, the file name only
   * otherwise, and there is no order only when neither has one.
   */
  function ResolveOrder(fm: map<string, string>, p: string): (r: Option<real>)
    ensures OrderFrom(fm, OrderKeys).Some? ==> r == OrderFrom(fm, OrderKeys)
    ensures OrderFrom(fm, OrderKeys).None? ==> r == NumericPrefix(p)
    ensures r.None? <==> OrderFrom(fm, OrderKeys).None? && NumericPrefix(p).None?
  {
    match OrderFrom(fm, OrderKeys)
    case Some(v) => Some(v)
    case None => NumericPrefix(p)
  }
}
