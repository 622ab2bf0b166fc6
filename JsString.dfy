/**
 * The part of JavaScript's `String.prototype.split` the codec uses: splitting
 * on a non-empty string separator, with no limit argument, and its inverse
 * `Join` (`Array.prototype.join`).
 */
module JsString {

  type NonEmptyString = s: string | |s| > 0 witness ":"

  /**
   * The fields of `s` between the occurrences of `sep`, found from left to
   * right without overlap; a string without an occurrence is one field.
   */
  function Split(s: string, sep: NonEmptyString): (fields: seq<string>)
    ensures |fields| >= 1
    decreases |s|
  {
    if |s| < |sep| then
      [s]
    else if s[..|sep|] == sep then
      [[]] + Split(s[|sep|..], sep)
    else
      var rest := Split(s[1..], sep);
      [[s[0]] + rest[0]] + rest[1..]
  }

  /** The fields written one after another with `sep` between neighbours. */
  function Join(fields: seq<string>, sep: string): string
    requires |fields| >= 1
  {
    if |fields| == 1 then fields[0] else fields[0] + sep + Join(fields[1..], sep)
  }

  lemma JoinConsChar(c: char, fields: seq<string>, sep: string)
    requires |fields| >= 1
    ensures Join([[c] + fields[0]] + fields[1..], sep) == [c] + Join(fields, sep)
  {
    var g := [[c] + fields[0]] + fields[1..];
    if |fields| > 1 {
      assert g[1..] == fields[1..];
    }
  }

  /** Splitting loses nothing: joining the fields with the separator gives the string back. */
  lemma {:induction false} JoinSplit(s: string, sep: NonEmptyString)
    ensures Join(Split(s, sep), sep) == s
    decreases |s|
  {
    if |s| < |sep| {
    } else if s[..|sep|] == sep {
      var rest := Split(s[|sep|..], sep);
      assert Split(s, sep) == [[]] + rest;
      JoinSplit(s[|sep|..], sep);
      assert ([[]] + rest)[1..] == rest;
      assert Join([[]] + rest, sep) == sep + s[|sep|..];
      assert s == s[..|sep|] + s[|sep|..];
    } else {
      var rest := Split(s[1..], sep);
      assert Split(s, sep) == [[s[0]] + rest[0]] + rest[1..];
      JoinSplit(s[1..], sep);
      JoinConsChar(s[0], rest, sep);
      assert s == [s[0]] + s[1..];
    }
  }

  /** `sep` occurs in `s` starting at index `k`. */
  predicate OccursAt(sep: string, s: string, k: int) {
    0 <= k <= |s| - |sep| && s[k..k + |sep|] == sep
  }

  /** `sep` occurs somewhere in `s`. */
  predicate OccursIn(sep: string, s: string) {
    exists k :: 0 <= k <= |s| - |sep| && OccursAt(sep, s, k)
  }

  /** The first field is where the string starts. */
  lemma FirstFieldIsPrefix(s: string, sep: NonEmptyString)
    ensures Split(s, sep)[0] <= s
  {
    var fields := Split(s, sep);
    JoinSplit(s, sep);
    if |fields| > 1 {
      assert s == fields[0] + (sep + Join(fields[1..], sep));
    }
  }

  /**
   * A character put in front of a separator-free prefix `g` of `t` makes no
   * occurrence, unless `sep` starts `[c] + t`.
   */
  lemma ConsFieldFree(c: char, g: string, t: string, sep: NonEmptyString)
    requires g <= t && !OccursIn(sep, g)
    requires !OccursAt(sep, [c] + t, 0)
    ensures !OccursIn(sep, [c] + g)
  {
    var f := [c] + g;
    forall k | OccursAt(sep, f, k) ensures false {
      if k > 0 {
        assert f[k..k + |sep|] == g[k - 1..k - 1 + |sep|];
        assert OccursAt(sep, g, k - 1);
      }
    }
  }

  /**
   * No field contains the separator: splitting cuts at every occurrence,
   * not only at some of them.
   */
  lemma {:induction false} SplitFieldsFree(s: string, sep: NonEmptyString)
    ensures forall i :: 0 <= i < |Split(s, sep)| ==> !OccursIn(sep, Split(s, sep)[i])
    decreases |s|
  {
    var fields := Split(s, sep);
    if |s| < |sep| {
      assert fields == [s];
      assert forall k :: !OccursAt(sep, s, k);
    } else if s[..|sep|] == sep {
      var rest := Split(s[|sep|..], sep);
      SplitFieldsFree(s[|sep|..], sep);
      assert fields == [[]] + rest;
      assert forall k :: !OccursAt(sep, [], k);
      assert forall i :: 1 <= i < |fields| ==> fields[i] == rest[i - 1];
    } else {
      var rest := Split(s[1..], sep);
      SplitFieldsFree(s[1..], sep);
      FirstFieldIsPrefix(s[1..], sep);
      assert [s[0]] + s[1..] == s;
      ConsFieldFree(s[0], rest[0], s[1..], sep);
      assert fields == [[s[0]] + rest[0]] + rest[1..];
      assert forall i :: 1 <= i < |fields| ==> fields[i] == rest[i];
    }
  }

  /** A string that does not contain the separator's first character is a single field. */
  lemma {:induction false} SplitWithoutSeparator(s: string, sep: NonEmptyString)
    requires sep[0] !in s
    ensures Split(s, sep) == [s]
    decreases |s|
  {
    if |s| >= |sep| {
      assert s[..|sep|][0] == s[0] != sep[0];
      assert sep[0] !in s[1..] by {
        forall i | 0 <= i < |s[1..]| ensures s[1..][i] != sep[0] {
          assert s[1..][i] == s[i + 1];
        }
      }
      SplitWithoutSeparator(s[1..], sep);
      assert [s[0]] + s[1..] == s;
    }
  }

  /**
   * When the first field `h` cannot contain the start of an occurrence of the
   * separator, the first occurrence is the one right after `h`.
   */
  lemma {:induction false} SplitAfterField(h: string, sep: NonEmptyString, t: string)
    requires sep[0] !in h
    ensures Split(h + sep + t, sep) == [h] + Split(t, sep)
    decreases |h|
  {
    var s := h + sep + t;
    if h == [] {
      assert s[..|sep|] == sep;
      assert s[|sep|..] == t;
    } else {
      assert s[..|sep|][0] == h[0] != sep[0];
      assert s[1..] == h[1..] + sep + t;
      assert sep[0] !in h[1..] by {
        forall i | 0 <= i < |h[1..]| ensures h[1..][i] != sep[0] {
          assert h[1..][i] == h[i + 1];
        }
      }
      SplitAfterField(h[1..], sep, t);
      assert [h[0]] + h[1..] == h;
    }
  }

  /** Two fields free of the separator's first character split back into exactly those two. */
  lemma SplitTwoFields(h: string, sep: NonEmptyString, m: string)
    requires sep[0] !in h && sep[0] !in m
    ensures Split(h + sep + m, sep) == [h, m]
  {
    SplitAfterField(h, sep, m);
    SplitWithoutSeparator(m, sep);
  }
}
