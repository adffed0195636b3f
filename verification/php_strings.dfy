/**
 * The PHP built-ins the client-IP resolver is made of, on strings and on
 * list-shaped arrays: `trim` with its default character set, `explode` on a
 * one-character separator, `array_map('trim', ...)`, `array_diff`,
 * `array_pop` and the truthiness of a string as `empty` and `if` see it.
 */
module PhpStrings {
  import opened Wrappers

  /** The characters PHP's `trim` strips when no character list is given:
      space, tab, line feed, carriage return, NUL and vertical tab. */
  predicate IsTrimChar(c: char) {
    c == ' ' || c == '\t' || c == '\n' || c == '\r' || c == '\0' || c == '\U{000B}'
  }

  /** Neither end of `s` is a character that `trim` would strip. */
  predicate IsTrimmed(s: string) {
    s == [] || (!IsTrimChar(s[0]) && !IsTrimChar(s[|s| - 1]))
  }

  /** The scan `trim` makes from the left: the first index at or after `i`
      whose character is not a trim character (or `|s|`). */
  function SkipLeading(s: string, i: nat): (r: nat)
    requires i <= |s|
    ensures i <= r <= |s|
    ensures forall k :: i <= k < r ==> IsTrimChar(s[k])
    ensures r < |s| ==> !IsTrimChar(s[r])
    decreases |s| - i
  {
    if i < |s| && IsTrimChar(s[i]) then SkipLeading(s, i + 1) else i
  }

  /** The scan `trim` makes from the right, never going below `lo`: the end
      of the longest stretch `s[lo..r]` with `s[r..j]` all trim characters. */
  function SkipTrailing(s: string, lo: nat, j: nat): (r: nat)
    requires lo <= j <= |s|
    ensures lo <= r <= j
    ensures forall k :: r <= k < j ==> IsTrimChar(s[k])
    ensures r > lo ==> !IsTrimChar(s[r - 1])
    decreases j
  {
    if j > lo && IsTrimChar(s[j - 1]) then SkipTrailing(s, lo, j - 1) else j
  }

  /** `trim`: strips trim characters from both ends, leaving a string that
      begins and ends with something else. */
  function Trim(s: string): (r: string)
    ensures IsTrimmed(r)
    ensures |r| <= |s|
  {
    var i := SkipLeading(s, 0);
    s[i..SkipTrailing(s, i, |s|)]
  }

  /** What `trim` removes: the result is a slice of `s`, and everything
      outside the slice is a trim character. */
  lemma TrimIsSlice(s: string)
    ensures exists i :: 0 <= i <= |s| - |Trim(s)| && Trim(s) == s[i..][..|Trim(s)|]
              && (forall k :: 0 <= k < i ==> IsTrimChar(s[k]))
              && (forall k :: i + |Trim(s)| <= k < |s| ==> IsTrimChar(s[k]))
  {
    var i := SkipLeading(s, 0);
    var j := SkipTrailing(s, i, |s|);
    assert Trim(s) == s[i..j];
    assert j == i + |Trim(s)|;
    assert Trim(s) == s[i..][..|Trim(s)|];
  }

  /** A string without trim characters at its ends is left alone by `trim`. */
  lemma TrimOfTrimmed(s: string)
    requires IsTrimmed(s)
    ensures Trim(s) == s
  {
    if s != [] {
      assert SkipLeading(s, 0) == 0;
      assert SkipTrailing(s, 0, |s|) == |s|;
      assert s[0..|s|] == s;
    }
  }

  /** One leading space in front of a trimmed string is all that `trim` removes. */
  lemma TrimSpaced(s: string)
    requires IsTrimmed(s)
    ensures Trim(" " + s) == s
  {
    var t := " " + s;
    assert t[0] == ' ';
    if s == [] {
      assert SkipLeading(t, 1) == 1;
      assert SkipLeading(t, 0) == 1;
      assert SkipTrailing(t, 1, 1) == 1;
    } else {
      assert t[1] == s[0] && t[|t| - 1] == s[|s| - 1];
      assert SkipLeading(t, 1) == 1;
      assert SkipLeading(t, 0) == 1;
      assert SkipTrailing(t, 1, |t|) == |t|;
      assert t[1..|t|] == s;
    }
  }

  /** `trim` is idempotent. */
  lemma TrimIdempotent(s: string)
    ensures Trim(Trim(s)) == Trim(s)
  {
    TrimOfTrimmed(Trim(s));
  }

  /** `implode(',', pieces)`: the pieces joined with commas. */
  function Implode(pieces: seq<string>): string
    requires |pieces| >= 1
  {
    if |pieces| == 1 then pieces[0] else pieces[0] + "," + Implode(pieces[1..])
  }

  /** `explode(',', s)`: the pieces between commas, left to right, which
      `implode` joins back into `s`. PHP returns one piece (the whole string)
      when there is no comma, including for "". */
  function Explode(s: string): (pieces: seq<string>)
    ensures |pieces| >= 1
    ensures Implode(pieces) == s
    decreases |s|
  {
    if s == [] then [[]]
    else
      var rest := Explode(s[1..]);
      if s[0] == ',' then
        assert ([[]] + rest)[1..] == rest;
        [[]] + rest
      else
        var pieces := [[s[0]] + rest[0]] + rest[1..];
        assert pieces[1..] == rest[1..];
        assert s == [s[0]] + s[1..];
        pieces
  }

  /** No piece of `explode` contains the separator. */
  lemma {:induction false} ExplodePiecesCommaFree(s: string)
    ensures forall i :: 0 <= i < |Explode(s)| ==> ',' !in Explode(s)[i]
    decreases |s|
  {
    if s != [] {
      ExplodePiecesCommaFree(s[1..]);
      var rest := Explode(s[1..]);
      if s[0] != ',' {
        assert forall c :: c in [s[0]] + rest[0] ==> c == s[0] || c in rest[0];
        forall i | 1 <= i < |Explode(s)| ensures ',' !in Explode(s)[i] {
          assert Explode(s)[i] == rest[i];
        }
      } else {
        forall i | 1 <= i < |Explode(s)| ensures ',' !in Explode(s)[i] {
          assert Explode(s)[i] == rest[i - 1];
        }
      }
    }
  }

  /** A character other than the separator joins the first piece. */
  lemma ExplodeCons(c: char, u: string)
    requires c != ','
    ensures Explode([c] + u) == [[c] + Explode(u)[0]] + Explode(u)[1..]
  {
    assert ([c] + u)[1..] == u;
  }

  /** A comma-free prefix stays glued to the first piece of what follows. */
  lemma {:induction false} ExplodePrefix(p: string, t: string)
    requires ',' !in p
    ensures Explode(p + t) == [p + Explode(t)[0]] + Explode(t)[1..]
    decreases |p|
  {
    var e := Explode(t);
    if p == [] {
      assert p + t == t;
      assert p + e[0] == e[0];
      assert e == [e[0]] + e[1..];
    } else {
      var q := p[1..];
      assert p == [p[0]] + q;
      assert p + t == [p[0]] + (q + t);
      assert ',' !in q by { assert forall c :: c in q ==> c in p; }
      ExplodeCons(p[0], q + t);
      ExplodePrefix(q, t);
      assert [p[0]] + (q + e[0]) == p + e[0];
    }
  }

  /** A comma-free string explodes into itself alone. */
  lemma ExplodeCommaFree(p: string)
    requires ',' !in p
    ensures Explode(p) == [p]
  {
    ExplodePrefix(p, "");
    assert p + "" == p;
  }

  /** Two comma-free strings joined by one comma explode back into the two. */
  lemma ExplodeTwo(a: string, b: string)
    requires ',' !in a && ',' !in b
    ensures Explode(a + "," + b) == [a, b]
  {
    var t := "," + b;
    assert a + "," + b == a + t;
    assert t[0] == ',' && t[1..] == b;
    ExplodeCommaFree(b);
    assert Explode(t) == [[]] + [b];
    ExplodePrefix(a, t);
    assert a + [] == a;
  }

  /** Splitting a join of comma-free pieces gives the pieces back. */
  lemma {:induction false} ExplodeImplode(pieces: seq<string>)
    requires |pieces| >= 1
    requires forall i :: 0 <= i < |pieces| ==> ',' !in pieces[i]
    ensures Explode(Implode(pieces)) == pieces
  {
    if |pieces| == 1 {
      ExplodeCommaFree(pieces[0]);
    } else {
      var rest := Implode(pieces[1..]);
      ExplodeImplode(pieces[1..]);
      ExplodePrefix(pieces[0], "," + rest);
      assert ("," + rest)[0] == ',' && ("," + rest)[1..] == rest;
      assert Explode("," + rest) == [[]] + pieces[1..];
      assert pieces[0] + [] == pieces[0];
      assert Implode(pieces) == pieces[0] + ("," + rest);
      assert pieces == [pieces[0]] + pieces[1..];
    }
  }

  /** `array_map('trim', pieces)`: every piece trimmed, in place. */
  function TrimAll(pieces: seq<string>): seq<string> {
    seq(|pieces|, i requires 0 <= i < |pieces| => Trim(pieces[i]))
  }

  /** After `array_map('trim', ...)` no entry has a trim character at either
      end, so mapping `trim` a second time changes nothing. */
  lemma TrimAllTrimmed(pieces: seq<string>)
    ensures |TrimAll(pieces)| == |pieces|
    ensures forall i :: 0 <= i < |pieces| ==> IsTrimmed(TrimAll(pieces)[i])
    ensures TrimAll(TrimAll(pieces)) == TrimAll(pieces)
  {
    var r := TrimAll(pieces);
    forall i | 0 <= i < |r| ensures TrimAll(r)[i] == r[i] {
      TrimIdempotent(pieces[i]);
    }
  }

  /** The entries after `array_map('trim', ...)` are exactly the trimmed
      pieces. */
  lemma TrimAllMembers(pieces: seq<string>, x: string)
    ensures x in TrimAll(pieces) <==> exists k :: 0 <= k < |pieces| && Trim(pieces[k]) == x
  {
    var r := TrimAll(pieces);
    if x in r {
      var k :| 0 <= k < |r| && r[k] == x;
      assert Trim(pieces[k]) == x;
    }
    if exists k :: 0 <= k < |pieces| && Trim(pieces[k]) == x {
      var k :| 0 <= k < |pieces| && Trim(pieces[k]) == x;
      assert r[k] == x;
    }
  }

  /** `array_diff(pieces, excluded)` on a list: the pieces not equal to any
      excluded string, in their original order (the keys PHP keeps are never
      looked at by `array_pop`, so only the order matters). */
  function ArrayDiff(pieces: seq<string>, excluded: seq<string>): (r: seq<string>)
    ensures |r| <= |pieces|
    ensures forall i :: 0 <= i < |r| ==> r[i] !in excluded
  {
    if pieces == [] then []
    else if pieces[|pieces| - 1] in excluded then ArrayDiff(pieces[..|pieces| - 1], excluded)
    else ArrayDiff(pieces[..|pieces| - 1], excluded) + [pieces[|pieces| - 1]]
  }

  /** The survivors of `array_diff` are exactly the pieces that are not excluded. */
  lemma {:induction false} ArrayDiffMembers(pieces: seq<string>, excluded: seq<string>, x: string)
    ensures x in ArrayDiff(pieces, excluded) <==> x in pieces && x !in excluded
  {
    if pieces != [] {
      var init := pieces[..|pieces| - 1];
      ArrayDiffMembers(init, excluded, x);
      assert pieces == init + [pieces[|pieces| - 1]];
    }
  }

  /** `array_diff` keeps order: it distributes over concatenation. */
  lemma {:induction false} ArrayDiffAppend(a: seq<string>, b: seq<string>, excluded: seq<string>)
    ensures ArrayDiff(a + b, excluded) == ArrayDiff(a, excluded) + ArrayDiff(b, excluded)
    decreases |b|
  {
    if b != [] {
      var b' := b[..|b| - 1];
      assert (a + b)[..|a + b| - 1] == a + b';
      ArrayDiffAppend(a, b', excluded);
    } else {
      assert a + b == a;
    }
  }

  /** The survivors of `array_diff` are empty exactly when every piece is excluded. */
  lemma {:induction false} ArrayDiffEmpty(pieces: seq<string>, excluded: seq<string>)
    ensures ArrayDiff(pieces, excluded) == [] <==> forall j :: 0 <= j < |pieces| ==> pieces[j] in excluded
  {
    if ArrayDiff(pieces, excluded) == [] {
      forall j | 0 <= j < |pieces| ensures pieces[j] in excluded {
        ArrayDiffMembers(pieces, excluded, pieces[j]);
      }
    } else if pieces != [] {
      var init := pieces[..|pieces| - 1];
      ArrayDiffEmpty(init, excluded);
      if pieces[|pieces| - 1] in excluded {
        var j :| 0 <= j < |init| && init[j] !in excluded;
        assert pieces[j] == init[j];
      }
    }
  }

  /** `array_pop` on a local copy: the last element, or nothing (PHP's `null`)
      for an empty array. */
  function ArrayPop(pieces: seq<string>): (r: Option<string>)
    ensures r.None? <==> pieces == []
    ensures r.Some? ==> r.value in pieces
  {
    if pieces == [] then None else Some(pieces[|pieces| - 1])
  }

  /** The last survivor of `array_diff` is the right-most piece that is not
      excluded: the piece at `k` when every piece after it is excluded. */
  lemma {:induction false} LastSurvivorIsRightmost(pieces: seq<string>, excluded: seq<string>, k: nat)
    requires k < |pieces| && pieces[k] !in excluded
    requires forall j :: k < j < |pieces| ==> pieces[j] in excluded
    ensures ArrayPop(ArrayDiff(pieces, excluded)) == Some(pieces[k])
  {
    assert pieces == pieces[..k + 1] + pieces[k + 1..];
    ArrayDiffAppend(pieces[..k + 1], pieces[k + 1..], excluded);
    ArrayDiffEmpty(pieces[k + 1..], excluded);
    assert pieces[..k + 1][..k] == pieces[..k];
  }

  /** Conversely, a popped survivor is the right-most piece that is not
      excluded: every piece after it is excluded. */
  lemma {:induction false} PoppedSurvivorIsRightmost(pieces: seq<string>, excluded: seq<string>, x: string)
    requires ArrayPop(ArrayDiff(pieces, excluded)) == Some(x)
    ensures exists k :: 0 <= k < |pieces| && pieces[k] == x && x !in excluded
              && forall j :: k < j < |pieces| ==> pieces[j] in excluded
  {
    var n := |pieces|;
    var init := pieces[..n - 1];
    if pieces[n - 1] in excluded {
      PoppedSurvivorIsRightmost(init, excluded, x);
      var k :| 0 <= k < |init| && init[k] == x && x !in excluded
               && forall j :: k < j < |init| ==> init[j] in excluded;
      assert forall j :: k < j < n ==> pieces[j] in excluded by {
        forall j | k < j < n ensures pieces[j] in excluded {
          if j < n - 1 { assert pieces[j] == init[j]; }
        }
      }
      assert pieces[k] == x;
    } else {
      assert pieces[n - 1] == x;
    }
  }

  /** The same, through `array_map('trim', ...)`: the popped survivor is the
      trimmed form of the right-most piece whose trimmed form is not excluded. */
  lemma PoppedTrimmedIsRightmost(pieces: seq<string>, excluded: seq<string>, x: string)
    requires ArrayPop(ArrayDiff(TrimAll(pieces), excluded)) == Some(x)
    ensures exists k :: 0 <= k < |pieces| && Trim(pieces[k]) == x && x !in excluded
              && forall j :: k < j < |pieces| ==> Trim(pieces[j]) in excluded
  {
    var trimmed := TrimAll(pieces);
    PoppedSurvivorIsRightmost(trimmed, excluded, x);
    var k :| 0 <= k < |trimmed| && trimmed[k] == x && x !in excluded
             && forall j :: k < j < |trimmed| ==> trimmed[j] in excluded;
    assert forall j :: k < j < |pieces| ==> Trim(pieces[j]) in excluded by {
      forall j | k < j < |pieces| ensures Trim(pieces[j]) in excluded {
        assert trimmed[j] == Trim(pieces[j]);
      }
    }
    assert Trim(pieces[k]) == x;
  }

  /** PHP's truthiness of a string: `""` and `"0"` are falsy, which is what
      both `empty(...)` and `if (...)` test. */
  predicate IsTruthy(s: string) {
    s != "" && s != "0"
  }
}
