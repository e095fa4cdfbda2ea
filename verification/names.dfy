/** File-name arithmetic used when files are moved into the root: decimal
    counters, the split of a base name into stem and extension, and the
    search for a free name by inserting "(counter)" before the extension. */
module FileNames {

  // ---------------------------------------------------------------------
  // Decimal counters

  function Digit(d: nat): (c: char)
    requires d < 10
    ensures '0' <= c <= '9' && c as int - '0' as int == d
  {
    ('0' as int + d) as char
  }

  /** The counter as it is formatted into a name: decimal, no leading zeros. */
  function Decimal(n: nat): (s: string)
    ensures |s| >= 1
    ensures forall i :: 0 <= i < |s| ==> '0' <= s[i] <= '9'
  {
    if n < 10 then [Digit(n)] else Decimal(n / 10) + [Digit(n % 10)]
  }

  /** A counter of two or more digits does not start with a zero. */
  lemma {:induction false} DecimalNoLeadingZero(n: nat)
    ensures Decimal(n)[0] != '0' || n == 0
  {
    if n >= 10 {
      DecimalNoLeadingZero(n / 10);
      assert Decimal(n)[0] == Decimal(n / 10)[0];
    }
  }

  /** The number a string of decimal digits denotes. */
  function DecimalValue(s: string): nat
    requires forall i :: 0 <= i < |s| ==> '0' <= s[i] <= '9'
  {
    if s == [] then 0
    else DecimalValue(s[..|s| - 1]) * 10 + (s[|s| - 1] as int - '0' as int)
  }

  /** Reading a formatted counter back gives the counter. */
  lemma {:induction false} DecimalRoundTrip(n: nat)
    ensures DecimalValue(Decimal(n)) == n
  {
    if n >= 10 {
      DecimalRoundTrip(n / 10);
      var s := Decimal(n);
      assert s[..|s| - 1] == Decimal(n / 10);
    }
  }

  // ---------------------------------------------------------------------
  // Splitting off the extension

  /** The index of the last '.' of `s`, or -1 when there is none. */
  function LastDot(s: string): (i: int)
    ensures -1 <= i < |s|
    ensures i >= 0 ==> s[i] == '.'
    ensures forall j :: i < j < |s| ==> s[j] != '.'
  {
    if s == [] then -1
    else if s[|s| - 1] == '.' then |s| - 1
    else LastDot(s[..|s| - 1])
  }

  predicate AllDots(s: string) {
    forall i :: 0 <= i < |s| ==> s[i] == '.'
  }

  /** Some dot of `name` comes after a character that is not a dot: this is
      when a name has an extension (leading dots never start one). */
  predicate HasExtension(name: string) {
    exists i, j :: 0 <= i < j < |name| && name[i] != '.' && name[j] == '.'
  }

  /** An extension: a dot followed by no further dot. */
  predicate IsExtension(ext: string) {
    |ext| >= 1 && ext[0] == '.' && forall i :: 1 <= i < |ext| ==> ext[i] != '.'
  }

  /** Python's `os.path.splitext` on a base name: the name is cut at its last
      dot unless only dots precede that dot, in which case the extension is
      empty. */
  function SplitExt(name: string): (r: (string, string))
    ensures r.0 + r.1 == name
    ensures r.1 != [] ==> IsExtension(r.1) && !AllDots(r.0)
  {
    var d := LastDot(name);
    if d >= 0 && !AllDots(name[..d]) then (name[..d], name[d..]) else (name, "")
  }

  /** A name has an extension exactly when some dot follows a character that
      is not a dot. */
  lemma SplitExtFindsExtension(name: string)
    ensures SplitExt(name).1 != [] <==> HasExtension(name)
  {
    var d := LastDot(name);
    if d >= 0 && !AllDots(name[..d]) {
      var i :| 0 <= i < d && name[..d][i] != '.';
      assert name[i] != '.' && name[d] == '.';
    } else {
      forall i, j | 0 <= i < j < |name| && name[j] == '.' ensures name[i] == '.' {
        assert name[..d][i] == name[i];
      }
    }
  }

  /** The split is the only one with these properties: a stem that is not
      all dots followed by an extension. */
  lemma SplitExtAt(stem: string, ext: string)
    requires IsExtension(ext) && !AllDots(stem)
    ensures SplitExt(stem + ext) == (stem, ext)
  {
    var name := stem + ext;
    var d := LastDot(name);
    assert name[|stem|] == '.';
    assert forall j :: |stem| < j < |name| ==> name[j] == ext[j - |stem|];
    assert d == |stem|;
    assert name[..d] == stem;
  }

  /** A name without an extension keeps having none when dot-free text is
      appended. */
  lemma NoExtensionAppend(name: string, s: string)
    requires !HasExtension(name)
    requires forall i :: 0 <= i < |s| ==> s[i] != '.'
    ensures SplitExt(name + s) == (name + s, "")
  {
    var t := name + s;
    forall i, j | 0 <= i < j < |t| && t[j] == '.' ensures t[i] == '.' {
      assert j < |name| && t[j] == name[j] && t[i] == name[i];
    }
  }

  // ---------------------------------------------------------------------
  // Disambiguating names

  /** "(counter)" as it is inserted into a name. */
  function Tag(counter: nat): (t: string)
    ensures |t| >= 3
    ensures forall i :: 0 <= i < |t| ==> t[i] != '.'
  {
    "(" + Decimal(counter) + ")"
  }

  /** The name with "(counter)" inserted between stem and extension. */
  function Suffixed(name: string, counter: nat): (r: string)
    ensures |r| >= |name| + 3
  {
    SplitExt(name).0 + Tag(counter) + SplitExt(name).1
  }

  /** Suffixing keeps the extension and grows the stem by the tag, so a
      second suffix lands after the first: "a(1).txt" becomes "a(1)(2).txt". */
  lemma SuffixKeepsExtension(name: string, counter: nat)
    ensures SplitExt(Suffixed(name, counter)) == (SplitExt(name).0 + Tag(counter), SplitExt(name).1)
  {
    var (stem, ext) := SplitExt(name);
    if ext == [] {
      assert stem == name;
      NoExtensionAppend(name, Tag(counter));
      assert Suffixed(name, counter) == name + Tag(counter);
    } else {
      var stem' := stem + Tag(counter);
      assert !AllDots(stem') by {
        var i :| 0 <= i < |stem| && stem[i] != '.';
        assert stem'[i] == stem[i];
      }
      SplitExtAt(stem', ext);
    }
  }

  /** `step` applied `k` times to `name`, the first time with `counter` and
      every further time with the next counter. */
  function Iterate(step: (string, nat) -> string, name: string, counter: nat, k: nat): string
    decreases k
  {
    if k == 0 then name else Iterate(step, step(name, counter), counter + 1, k - 1)
  }

  /** The last of `k + 1` steps comes after the first `k`. */
  lemma {:induction false} IterateStep(step: (string, nat) -> string, name: string, counter: nat, k: nat)
    ensures Iterate(step, name, counter, k + 1) == step(Iterate(step, name, counter, k), counter + k)
    decreases k
  {
    if k > 0 {
      IterateStep(step, step(name, counter), counter + 1, k - 1);
    }
  }

  lemma SuffixExtension(name: string, counter: nat)
    ensures SplitExt(Suffixed(name, counter)).1 == SplitExt(name).1
  {
    SuffixKeepsExtension(name, counter);
  }

  /** The name tried after `k` collisions, starting at `counter`. */
  function NthTry(name: string, counter: nat, k: nat): (t: string)
    ensures k == 0 ==> t == name
  {
    Iterate(Suffixed, name, counter, k)
  }

  /** Each candidate is the previous one with the next counter inserted
      before its extension. */
  lemma NthTryStep(name: string, counter: nat, k: nat)
    ensures NthTry(name, counter, k + 1) == Suffixed(NthTry(name, counter, k), counter + k)
  {
    IterateStep(Suffixed, name, counter, k);
  }

  /** No candidate changes the extension of the name. */
  lemma {:induction false} NthTryExtension(name: string, counter: nat, k: nat)
    ensures SplitExt(NthTry(name, counter, k)).1 == SplitExt(name).1
    decreases k
  {
    if k > 0 {
      var next := Suffixed(name, counter);
      SuffixExtension(name, counter);
      NthTryExtension(next, counter + 1, k - 1);
      assert NthTry(name, counter, k) == NthTry(next, counter + 1, k - 1);
    }
  }

  /** Every collision makes the name at least three characters longer. */
  lemma {:induction false} NthTryLength(name: string, counter: nat, k: nat)
    ensures |NthTry(name, counter, k)| >= |name| + 3 * k
    decreases k
  {
    if k > 0 {
      var next := Suffixed(name, counter);
      NthTryLength(next, counter + 1, k - 1);
      assert NthTry(name, counter, k) == NthTry(next, counter + 1, k - 1);
    }
  }

  /** The first of `name`, `Suffixed(name, counter)`, ... that is not taken.
      The search ends because every step makes the name longer and only
      finitely many taken names are at least that long. */
  function FreeFrom(occupied: set<string>, name: string, counter: nat): (r: string)
    ensures r !in occupied
    decreases set n | n in occupied && |n| >= |name|
  {
    if name !in occupied then name
    else
      var next := Suffixed(name, counter);
      LongerNameFewerRivals(occupied, name, next);
      FreeFrom(occupied, next, counter + 1)
  }

  /** Taken names at least as long as a longer name are fewer. */
  lemma LongerNameFewerRivals(occupied: set<string>, name: string, next: string)
    requires name in occupied && |next| > |name|
    ensures (set n | n in occupied && |n| >= |next|) < (set n | n in occupied && |n| >= |name|)
  {
    var longer := set n | n in occupied && |n| >= |next|;
    var rivals := set n | n in occupied && |n| >= |name|;
    assert longer <= rivals;
    assert name in rivals && name !in longer;
  }

  /** The chosen name is candidate number `k`, and every earlier candidate
      was taken. */
  lemma {:induction false} FreeFromIsFirstFree(occupied: set<string>, name: string, counter: nat) returns (k: nat)
    ensures FreeFrom(occupied, name, counter) == NthTry(name, counter, k)
    ensures forall j :: 0 <= j < k ==> NthTry(name, counter, j) in occupied
    decreases set n | n in occupied && |n| >= |name|
  {
    if name in occupied {
      var next := Suffixed(name, counter);
      LongerNameFewerRivals(occupied, name, next);
      var k' := FreeFromIsFirstFree(occupied, next, counter + 1);
      k := k' + 1;
      forall j | 0 <= j < k ensures NthTry(name, counter, j) in occupied {
        if j > 0 {
          assert NthTry(name, counter, j) == NthTry(next, counter + 1, j - 1);
        }
      }
    } else {
      k := 0;
    }
  }

  /** The chosen name keeps the extension and is no shorter than the name. */
  lemma FreeFromKeepsExtension(occupied: set<string>, name: string, counter: nat)
    ensures SplitExt(FreeFrom(occupied, name, counter)).1 == SplitExt(name).1
    ensures |FreeFrom(occupied, name, counter)| >= |name|
  {
    var k := FreeFromIsFirstFree(occupied, name, counter);
    NthTryExtension(name, counter, k);
    NthTryLength(name, counter, k);
  }

  /** A name that is free is kept as it is. */
  lemma FreeNameKept(occupied: set<string>, name: string, counter: nat)
    requires name !in occupied
    ensures FreeFrom(occupied, name, counter) == name
  {
  }

  /** The collision loop: while the target exists, insert the counter before
      the extension of the current name and count up. */
  method FindFreeName(occupied: set<string>, name: string) returns (target: string)
    ensures target == FreeFrom(occupied, name, 1)
    ensures target !in occupied
  {
    var file := name;
    var counter := 1;
    while file in occupied
      invariant FreeFrom(occupied, file, counter) == FreeFrom(occupied, name, 1)
      decreases set n | n in occupied && |n| >= |file|
    {
      var next := Suffixed(file, counter);
      LongerNameFewerRivals(occupied, file, next);
      file := next;
      counter := counter + 1;
    }
    target := file;
  }

  /** The counter goes between the stem and the extension. */
  lemma SuffixedAt(stem: string, ext: string, counter: nat)
    requires IsExtension(ext) && !AllDots(stem)
    ensures Suffixed(stem + ext, counter) == stem + Tag(counter) + ext
  {
    SplitExtAt(stem, ext);
  }

  /** The names the collision loop tries for "a.txt". */
  lemma CompoundingSuffixes()
    ensures NthTry("a.txt", 1, 1) == "a(1).txt"
    ensures NthTry("a.txt", 1, 2) == "a(1)(2).txt"
  {
    FirstSuffix();
    SecondSuffix();
    assert NthTry("a.txt", 1, 2) == NthTry("a(1).txt", 2, 1);
  }

  lemma FirstSuffix()
    ensures Suffixed("a.txt", 1) == "a(1).txt"
  {
    assert Decimal(1) == "1";
    assert "a"[0] != '.';
    assert "a" + ".txt" == "a.txt";
    SuffixedAt("a", ".txt", 1);
    assert "a" + "(1)" + ".txt" == "a(1).txt";
  }

  lemma SecondSuffix()
    ensures Suffixed("a(1).txt", 2) == "a(1)(2).txt"
  {
    assert Decimal(2) == "2";
    assert "a(1)"[0] != '.';
    assert "a(1)" + ".txt" == "a(1).txt";
    SuffixedAt("a(1)", ".txt", 2);
    SpellOut();
  }

  lemma SpellOut()
    ensures "a(1)" + "(2)" + ".txt" == "a(1)(2).txt"
  {
  }

  /** Leading dots do not start an extension: ".bashrc" gets its counter at the end. */
  lemma HiddenFileSuffix()
    ensures Suffixed(".bashrc", 1) == ".bashrc(1)"
  {
    assert LastDot(".bashrc") == 0 by {
      assert ".bashrc"[0] == '.';
      forall j | 1 <= j < |".bashrc"| ensures ".bashrc"[j] != '.' {
      }
    }
    assert AllDots(".bashrc"[..0]);
    assert Decimal(1) == "1";
  }
}
