/**
 * Checkpoint file names of `ModelCheckpoint._create_filename` and the
 * prefix test `save` uses to find the evicted checkpoint's files
 * (src/utils/model_checkpoint.py), over strings as sequences of characters.
 */
module FileNames {
  import opened Ledger

  predicate IsDigit(c: char)
  {
    '0' <= c <= '9'
  }

  function Digit(d: int): (c: char)
    requires 0 <= d < 10
    ensures IsDigit(c)
  {
    (('0' as int) + d) as char
  }

  /** The decimal digits of `n`, most significant first, without leading zeros. */
  function Decimal(n: nat): (r: string)
    ensures |r| >= 1 && (|r| == 1 <==> n < 10)
    ensures forall i :: 0 <= i < |r| ==> IsDigit(r[i])
  {
    if n < 10 then [Digit(n)] else Decimal(n / 10) + [Digit(n % 10)]
  }

  /** Python's `str` (and `f"{...}"`) of an integer: a minus sign, then the digits of the magnitude. */
  function IntToString(i: int): (r: string)
    ensures |r| >= 1
    ensures forall j :: 1 <= j < |r| ==> IsDigit(r[j])
    ensures r[0] == '-' <==> i < 0
  {
    if i < 0 then "-" + Decimal(-i) else Decimal(i)
  }

  lemma {:induction false} DecimalInjective(a: nat, b: nat)
    requires Decimal(a) == Decimal(b)
    ensures a == b
  {
    if 10 <= a {
      var da, db := Decimal(a), Decimal(b);
      assert da[|da| - 1] == Digit(a % 10) && db[|db| - 1] == Digit(b % 10);
      assert da[..|da| - 1] == Decimal(a / 10) && db[..|db| - 1] == Decimal(b / 10);
      DecimalInjective(a / 10, b / 10);
    }
  }

  /** Distinct epochs are written differently. */
  lemma IntToStringInjective(a: int, b: int)
    requires IntToString(a) == IntToString(b)
    ensures a == b
  {
    if a < 0 {
      assert IntToString(a)[1..] == Decimal(-a) && IntToString(b)[1..] == Decimal(-b);
      DecimalInjective(-a, -b);
    } else {
      DecimalInjective(a, b);
    }
  }

  /** The last `n` decimal digits of `d`, zero-padded: `f"{d:0{n}d}"` for `d < 10^n`. */
  function Padded(n: nat, d: nat): (r: string)
    ensures |r| == n
    ensures forall i :: 0 <= i < |r| ==> IsDigit(r[i])
  {
    if n == 0 then [] else Padded(n - 1, d / 10) + [Digit(d % 10)]
  }

  /**
   * `f"{v:.4f}"`. A metric value is modelled as an integer number of
   * ten-thousandths, so four fraction digits render it exactly.
   */
  function FormatValue(v: Value): (r: string)
    ensures |r| >= 6
    ensures r[0] == '-' <==> v < 0
    ensures r[|r| - 5] == '.'
    ensures forall i :: (if v < 0 then 1 else 0) <= i < |r| && i != |r| - 5 ==> IsDigit(r[i])
  {
    var a := if v < 0 then -v else v;
    (if v < 0 then "-" else "") + Decimal(a / 10000) + "." + Padded(4, a % 10000)
  }

  /** One `k=v` field of a file name. */
  function Field(k: string, metrics: map<string, Value>): string
    requires k in metrics
  {
    k + "=" + FormatValue(metrics[k])
  }

  /** The fields for `keys`, in that order, separated by single hyphens and with no trailing one. */
  function JoinFields(keys: seq<string>, metrics: map<string, Value>): string
    requires forall k :: k in keys ==> k in metrics
  {
    if |keys| == 0 then ""
    else if |keys| == 1 then Field(keys[0], metrics)
    else JoinFields(keys[..|keys| - 1], metrics) + "-" + Field(keys[|keys| - 1], metrics)
  }

  /** Python's ordering of strings: lexicographic by code point, a proper prefix first. */
  predicate LexLess(a: string, b: string)
    decreases |a|
  {
    if a == [] then b != []
    else if b == [] then false
    else if a[0] != b[0] then a[0] < b[0]
    else LexLess(a[1..], b[1..])
  }

  /**
   * The ordering spelled out: `a` is a proper prefix of `b`, or at the first
   * position where they differ `a` has the smaller character.
   */
  ghost predicate LexBelow(a: string, b: string)
  {
    (|a| < |b| && a == b[..|a|]) ||
    exists i :: 0 <= i < |a| && i < |b| && a[..i] == b[..i] && a[i] < b[i]
  }

  lemma {:induction false} LexLessMeans(a: string, b: string)
    ensures LexLess(a, b) <==> LexBelow(a, b)
    decreases |a|
  {
    if a == [] {
      assert a == b[..0];
    } else if b != [] {
      if a[0] != b[0] {
        if a[0] < b[0] {
          assert a[..0] == b[..0];
        }
      } else {
        LexLessMeans(a[1..], b[1..]);
        LexBelowTail(a, b);
      }
    }
  }

  /** After a common first character the ordering is that of the tails. */
  lemma LexBelowTail(a: string, b: string)
    requires a != [] && b != [] && a[0] == b[0]
    ensures LexBelow(a, b) <==> LexBelow(a[1..], b[1..])
  {
    PrefixTail(a, b);
    DiffTail(a, b);
  }

  lemma PrefixTail(a: string, b: string)
    requires a != [] && b != [] && a[0] == b[0]
    ensures (|a| < |b| && a == b[..|a|]) <==> (|a| - 1 < |b| - 1 && a[1..] == b[1..][..|a| - 1])
  {
    if |a| < |b| && a[1..] == b[1..][..|a| - 1] {
      assert a == [a[0]] + a[1..] && b[..|a|] == [b[0]] + b[1..][..|a| - 1];
    }
  }

  lemma DiffTail(a: string, b: string)
    requires a != [] && b != [] && a[0] == b[0]
    ensures (exists i :: 0 <= i < |a| && i < |b| && a[..i] == b[..i] && a[i] < b[i]) <==>
      (exists i :: 0 <= i < |a| - 1 && i < |b| - 1 && a[1..][..i] == b[1..][..i] && a[1..][i] < b[1..][i])
  {
    if exists i :: 0 <= i < |a| && i < |b| && a[..i] == b[..i] && a[i] < b[i] {
      var i :| 0 <= i < |a| && i < |b| && a[..i] == b[..i] && a[i] < b[i];
      DiffDrop(a, b, i);
    }
    if exists i :: 0 <= i < |a| - 1 && i < |b| - 1 && a[1..][..i] == b[1..][..i] && a[1..][i] < b[1..][i] {
      var i :| 0 <= i < |a| - 1 && i < |b| - 1 && a[1..][..i] == b[1..][..i] && a[1..][i] < b[1..][i];
      DiffAdd(a, b, i);
    }
  }

  /** A first difference at `i` of `a` and `b` is one at `i - 1` of their tails. */
  lemma DiffDrop(a: string, b: string, i: int)
    requires a != [] && b != [] && a[0] == b[0]
    requires 0 <= i < |a| && i < |b| && a[..i] == b[..i] && a[i] < b[i]
    ensures 0 <= i - 1 < |a| - 1 && i - 1 < |b| - 1 && a[1..][..i - 1] == b[1..][..i - 1] && a[1..][i - 1] < b[1..][i - 1]
  {
    assert a[1..][..i - 1] == a[..i][1..] && b[1..][..i - 1] == b[..i][1..];
  }

  /** A first difference at `i` of the tails is one at `i + 1` of `a` and `b`. */
  lemma DiffAdd(a: string, b: string, i: int)
    requires a != [] && b != [] && a[0] == b[0]
    requires 0 <= i < |a| - 1 && i < |b| - 1 && a[1..][..i] == b[1..][..i] && a[1..][i] < b[1..][i]
    ensures 0 <= i + 1 < |a| && i + 1 < |b| && a[..i + 1] == b[..i + 1] && a[i + 1] < b[i + 1]
  {
    assert a[..i + 1] == [a[0]] + a[1..][..i] && b[..i + 1] == [b[0]] + b[1..][..i];
  }

  lemma {:induction false} LexIrreflexive(a: string)
    ensures !LexLess(a, a)
  {
    if a != [] {
      LexIrreflexive(a[1..]);
    }
  }

  lemma {:induction false} LexTransitive(a: string, b: string, c: string)
    requires LexLess(a, b) && LexLess(b, c)
    ensures LexLess(a, c)
    decreases |a|
  {
    if a != [] && b != [] && c != [] && a[0] == b[0] && b[0] == c[0] {
      LexTransitive(a[1..], b[1..], c[1..]);
    }
  }

  lemma {:induction false} LexTotal(a: string, b: string)
    requires a != b
    ensures LexLess(a, b) || LexLess(b, a)
    decreases |a|
  {
    if a != [] && b != [] && a[0] == b[0] {
      assert a == [a[0]] + a[1..] && b == [b[0]] + b[1..];
      LexTotal(a[1..], b[1..]);
    }
  }

  lemma {:induction false} LexAsymmetric(a: string, b: string)
    requires LexLess(a, b)
    ensures !LexLess(b, a)
    decreases |a|
  {
    if a != [] && b != [] && a[0] == b[0] {
      LexAsymmetric(a[1..], b[1..]);
    }
  }

  ghost predicate StrictlyIncreasing(s: seq<string>)
  {
    forall i, j :: 0 <= i < j < |s| ==> LexLess(s[i], s[j])
  }

  /** `k` is the smallest element of `keys`. */
  predicate IsLeast(k: string, keys: set<string>)
  {
    k in keys && forall j :: j in keys && j != k ==> LexLess(k, j)
  }

  lemma {:induction false} LeastExists(keys: set<string>)
    requires keys != {}
    ensures exists k :: IsLeast(k, keys)
    decreases |keys|
  {
    var x :| x in keys;
    var rest := keys - {x};
    if rest == {} {
      assert keys == {x};
      assert IsLeast(x, keys);
    } else {
      LeastExists(rest);
      var m :| IsLeast(m, rest);
      LexTotal(x, m);
      if LexLess(x, m) {
        forall j | j in keys && j != x ensures LexLess(x, j) {
          if j != m {
            LexTransitive(x, m, j);
          }
        }
        assert IsLeast(x, keys);
      } else {
        assert IsLeast(m, keys);
      }
    }
  }

  lemma LeastUnique(a: string, b: string, keys: set<string>)
    requires IsLeast(a, keys) && IsLeast(b, keys)
    ensures a == b
  {
    if a != b {
      LexAsymmetric(a, b);
    }
  }

  /** Python's `sorted(metrics.keys())`: the keys in ascending order, each once. */
  ghost function SortedKeys(keys: set<string>): (r: seq<string>)
    ensures StrictlyIncreasing(r)
    ensures forall k :: k in r <==> k in keys
    ensures |r| == |keys|
    decreases |keys|
  {
    if keys == {} then []
    else
      LeastExists(keys);
      var k :| IsLeast(k, keys);
      var rest := SortedKeys(keys - {k});
      assert forall i :: 0 <= i < |rest| ==> rest[i] in keys - {k};
      [k] + rest
  }

  lemma HeadIn(s: seq<string>)
    ensures s != [] ==> s[0] in s
  {
  }

  /** The head of an ascending list holding exactly `keys` is their least element. */
  lemma IncreasingHead(s: seq<string>, keys: set<string>)
    requires StrictlyIncreasing(s) && keys != {}
    requires forall k :: k in s <==> k in keys
    ensures s != [] && IsLeast(s[0], keys)
  {
    var j :| j in keys;
    forall j | j in keys && j != s[0] ensures LexLess(s[0], j) {
      var i :| 0 <= i < |s| && s[i] == j;
    }
  }

  /** The tail of an ascending list holding exactly `keys` holds exactly the other keys. */
  lemma IncreasingTail(s: seq<string>, keys: set<string>)
    requires StrictlyIncreasing(s) && s != []
    requires forall k :: k in s <==> k in keys
    ensures StrictlyIncreasing(s[1..])
    ensures forall k :: k in s[1..] <==> k in keys - {s[0]}
  {
    forall k ensures k in s[1..] <==> k in keys - {s[0]} {
      if k in s[1..] {
        var i :| 1 <= i < |s| && s[i] == k;
        if k == s[0] {
          LexIrreflexive(k);
        }
      }
    }
  }

  /** An ascending list holding exactly `keys` is `SortedKeys(keys)`: the order is determined. */
  lemma {:induction false} SortedKeysUnique(s: seq<string>, keys: set<string>)
    requires StrictlyIncreasing(s)
    requires forall k :: k in s <==> k in keys
    ensures s == SortedKeys(keys)
    decreases |keys|
  {
    var r := SortedKeys(keys);
    if keys == {} {
      HeadIn(s);
    } else {
      IncreasingHead(s, keys);
      IncreasingHead(r, keys);
      LeastUnique(s[0], r[0], keys);
      IncreasingTail(s, keys);
      IncreasingTail(r, keys);
      SortedKeysUnique(s[1..], keys - {s[0]});
      SortedKeysUnique(r[1..], keys - {r[0]});
      assert s == [s[0]] + s[1..] && r == [r[0]] + r[1..];
    }
  }

  /** Python's `sorted(list(metrics.keys()))`, by repeatedly taking the least remaining key. */
  method SortKeys(keys: set<string>) returns (r: seq<string>)
    ensures r == SortedKeys(keys)
  {
    r := [];
    var rest := keys;
    while rest != {}
      invariant rest <= keys
      invariant StrictlyIncreasing(r)
      invariant forall k :: k in r <==> k in keys && k !in rest
      invariant forall a, b :: a in r && b in rest ==> LexLess(a, b)
      decreases |rest|
    {
      LeastExists(rest);
      var k :| IsLeast(k, rest);
      assert forall i :: 0 <= i < |r| ==> LexLess(r[i], k);
      r := r + [k];
      rest := rest - {k};
    }
    SortedKeysUnique(r, keys);
  }

  /**
   * `_create_filename`: `epoch=<epoch>-`, the `k=v` fields in ascending key
   * order joined by hyphens, then `.pth`.
   */
  ghost function FileName(epoch: int, metrics: map<string, Value>): string
  {
    "epoch=" + IntToString(epoch) + "-" + JoinFields(SortedKeys(metrics.Keys), metrics) + ".pth"
  }

  /** The prefix `save` deletes by: `f"epoch={self.to_remove}"`, with no hyphen. */
  function EvictionPrefix(epoch: int): string
  {
    "epoch=" + IntToString(epoch)
  }

  /** Python's `str.startswith`. */
  predicate StartsWith(s: string, prefix: string)
  {
    prefix <= s
  }

  /** `s` starts with `prefix` exactly when its first `|prefix|` characters are `prefix`. */
  lemma StartsWithMeans(s: string, prefix: string)
    ensures StartsWith(s, prefix) <==> |prefix| <= |s| && s[..|prefix|] == prefix
  {
  }

  /**
   * The deletion prefix is `epoch=` and the epoch's digits, minus sign
   * first when negative; it ends in a digit, not in the hyphen of a name.
   */
  lemma EvictionPrefixShape(epoch: int)
    ensures var r := EvictionPrefix(epoch);
      |r| >= 7 && r[..6] == "epoch=" && IsDigit(r[|r| - 1]) && (r[6] == '-' <==> epoch < 0) &&
      forall i :: 7 <= i < |r| ==> IsDigit(r[i])
  {
  }

  /**
   * Every file name begins with its epoch's deletion prefix and a hyphen and
   * ends in `.pth`.
   */
  lemma FileNameShape(epoch: int, metrics: map<string, Value>)
    ensures var r := FileName(epoch, metrics);
      StartsWith(r, EvictionPrefix(epoch) + "-") && |r| >= 12 && r[|r| - 4..] == ".pth"
  {
    var j := JoinFields(SortedKeys(metrics.Keys), metrics);
    assert FileName(epoch, metrics) == (EvictionPrefix(epoch) + "-") + (j + ".pth");
  }

  /** Every character of every key shows up in the joined fields. */
  lemma {:induction false} KeyCharInFields(keys: seq<string>, metrics: map<string, Value>, key: string, c: char)
    requires forall k :: k in keys ==> k in metrics
    requires key in keys && c in key
    ensures c in JoinFields(keys, metrics)
    decreases |keys|
  {
    var n := |keys|;
    if n == 1 {
      KeyCharInField(key, metrics, c);
    } else {
      var init, last := JoinFields(keys[..n - 1], metrics), Field(keys[n - 1], metrics);
      assert JoinFields(keys, metrics) == init + "-" + last;
      if key == keys[n - 1] {
        KeyCharInField(key, metrics, c);
        CharInJoin(init, last, c);
      } else {
        assert key in keys[..n - 1];
        KeyCharInFields(keys[..n - 1], metrics, key, c);
        CharInJoin(init, last, c);
      }
    }
  }

  lemma KeyCharInField(key: string, metrics: map<string, Value>, c: char)
    requires key in metrics && c in key
    ensures c in Field(key, metrics)
  {
    assert Field(key, metrics) == key + ("=" + FormatValue(metrics[key]));
  }

  lemma CharInJoin(a: string, b: string, c: char)
    ensures c in a || c in b ==> c in a + "-" + b
  {
  }

  /** Every character of every metric key shows up in the file name. */
  lemma KeyCharInName(epoch: int, metrics: map<string, Value>, key: string, c: char)
    requires key in metrics && c in key
    ensures c in FileName(epoch, metrics)
  {
    var keys := SortedKeys(metrics.Keys);
    KeyCharInFields(keys, metrics, key, c);
    var j := JoinFields(keys, metrics);
    assert FileName(epoch, metrics) == ("epoch=" + IntToString(epoch) + "-") + j + ".pth";
  }

  /** Without metrics the file name is `epoch=<epoch>-.pth`. */
  lemma FileNameNoMetrics(epoch: int)
    ensures FileName(epoch, map[]) == "epoch=" + IntToString(epoch) + "-.pth"
  {
    var none: map<string, Value> := map[];
    assert |SortedKeys(none.Keys)| == 0;
  }

  /** With one metric the file name is `epoch=<epoch>-<k>=<v>.pth`. */
  lemma FileNameOneMetric(epoch: int, k: string, v: Value)
    ensures FileName(epoch, map[k := v]) == "epoch=" + IntToString(epoch) + "-" + k + "=" + FormatValue(v) + ".pth"
  {
    var keys := SortedKeys(map[k := v].Keys);
    assert |keys| == 1 && keys[0] in map[k := v].Keys;
  }

  /** The characters of `a + "-" + r` up to and including the hyphen. */
  lemma HyphenAfter(a: string, r: string)
    ensures (a + "-" + r)[|a|] == '-'
    ensures forall i :: 0 <= i < |a| ==> (a + "-" + r)[i] == a[i]
  {
  }

  /** A `-` right after a token whose tail is digits pins down where the token ends. */
  lemma SplitAtHyphen(a: string, b: string, ra: string, rb: string)
    requires |a| >= 1 && |b| >= 1
    requires forall j :: 1 <= j < |a| ==> IsDigit(a[j])
    requires forall j :: 1 <= j < |b| ==> IsDigit(b[j])
    requires a + "-" + ra == b + "-" + rb
    ensures a == b
  {
    HyphenAfter(a, ra);
    HyphenAfter(b, rb);
    if |a| < |b| {
      assert false;
    } else if |b| < |a| {
      assert false;
    } else {
      assert a == (a + "-" + ra)[..|a|] == b;
    }
  }

  /** The part of a file name after `epoch=`. */
  ghost function AfterEpochKey(epoch: int, metrics: map<string, Value>): string
  {
    IntToString(epoch) + "-" + JoinFields(SortedKeys(metrics.Keys), metrics) + ".pth"
  }

  lemma FileNameSplit(epoch: int, metrics: map<string, Value>)
    ensures FileName(epoch, metrics) == "epoch=" + AfterEpochKey(epoch, metrics)
    ensures FileName(epoch, metrics)[6..] == AfterEpochKey(epoch, metrics)
  {
  }

  /** Strings that agree after a common prefix agree. */
  lemma CancelHead(p: string, x: string, y: string)
    requires p + x == p + y
    ensures x == y
  {
    assert x == (p + x)[|p|..];
  }

  /** Two epoch tokens, each a sign or digit then digits, that differ give different names. */
  lemma TokensDistinct(a: string, b: string, ra: string, rb: string)
    requires |a| >= 1 && |b| >= 1 && a != b
    requires forall j :: 1 <= j < |a| ==> IsDigit(a[j])
    requires forall j :: 1 <= j < |b| ==> IsDigit(b[j])
    ensures "epoch=" + (a + "-" + ra) != "epoch=" + (b + "-" + rb)
  {
    if "epoch=" + (a + "-" + ra) == "epoch=" + (b + "-" + rb) {
      CancelHead("epoch=", a + "-" + ra, b + "-" + rb);
      SplitAtHyphen(a, b, ra, rb);
    }
  }

  /** The shape of a file name, regrouped around its epoch token. */
  lemma NameRegroup(a: string, j: string)
    ensures "epoch=" + a + "-" + j + ".pth" == "epoch=" + (a + "-" + (j + ".pth"))
  {
  }

  /** Checkpoints of different epochs never share a file name. */
  lemma FileNamesDistinct(e1: int, e2: int, m1: map<string, Value>, m2: map<string, Value>)
    requires e1 != e2
    ensures FileName(e1, m1) != FileName(e2, m2)
  {
    var a, b := IntToString(e1), IntToString(e2);
    var j1, j2 := JoinFields(SortedKeys(m1.Keys), m1), JoinFields(SortedKeys(m2.Keys), m2);
    var ra, rb := j1 + ".pth", j2 + ".pth";
    NameRegroup(a, j1);
    NameRegroup(b, j2);
    if a == b {
      IntToStringInjective(e1, e2);
    }
    TokensDistinct(a, b, ra, rb);
  }

  /**
   * The deletion prefix of epoch `e` matches the checkpoint of epoch `t`
   * exactly when the digits of `e` begin those of `t`: always for `t == e`,
   * but also for longer epochs such as 12 when `e` is 1.
   */
  lemma EvictionPrefixMatches(e: int, t: int, m: map<string, Value>)
    ensures StartsWith(FileName(t, m), EvictionPrefix(e)) <==> IntToString(e) <= IntToString(t)
  {
    var a, b := IntToString(e), IntToString(t);
    var rest := JoinFields(SortedKeys(m.Keys), m) + ".pth";
    FileNameSplit(t, m);
    assert AfterEpochKey(t, m) == b + "-" + rest;
    PrefixCancel("epoch=", a, b + "-" + rest);
    TokenPrefix(a, b, rest);
  }

  /** A common prefix does not change whether one string begins another. */
  lemma PrefixCancel(p: string, x: string, y: string)
    ensures p + x <= p + y <==> x <= y
  {
    if p + x <= p + y {
      assert x == (p + x)[|p|..] == (p + y)[|p|..|p| + |x|];
    }
  }

  /**
   * A token whose tail is digits begins `b + "-" + rest` exactly when it
   * begins `b`: it cannot run on past `b` into the hyphen.
   */
  lemma TokenPrefix(a: string, b: string, rest: string)
    requires |a| >= 1 && |b| >= 1
    requires forall j :: 1 <= j < |a| ==> IsDigit(a[j])
    ensures a <= b + "-" + rest <==> a <= b
  {
    HyphenAfter(b, rest);
    if a <= b + "-" + rest {
      if |a| > |b| {
        assert false;
      } else {
        assert a == (b + "-" + rest)[..|a|] == b[..|a|];
      }
    }
  }

  /** Appending a digit to a positive epoch's digits gives the digits of `10 * e + d`. */
  lemma LongerEpoch(e: nat, d: nat)
    requires e >= 1 && d < 10
    ensures IntToString(10 * e + d) == IntToString(e) + [Digit(d)]
  {
    assert (10 * e + d) / 10 == e && (10 * e + d) % 10 == d;
  }

  /**
   * As written, evicting a positive epoch `e` also deletes the checkpoint of
   * every epoch `10 * e + d`, such as 12 for 1.
   */
  lemma EvictionOvermatches(e: nat, d: nat, m: map<string, Value>)
    requires e >= 1 && d < 10
    ensures 10 * e + d != e
    ensures StartsWith(FileName(10 * e + d, m), EvictionPrefix(e))
  {
    LongerEpoch(e, d);
    EvictionPrefixMatches(e, 10 * e + d, m);
  }
}
