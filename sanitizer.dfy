/** `sanitize_for_excel` and `sanitize_for_json`: the two have the same body, so
    one function models both.  They delete the C0 control characters a
    spreadsheet cell or a JSON consumer cannot hold, keeping tab, line feed and
    carriage return. */
module Sanitizer {
  import opened Optionals

  /** The class `[\x00-\x08\x0B\x0C\x0E-\x1F]`. */
  predicate IsControl(c: char)
  {
    c as int <= 0x08 || c as int == 0x0B || c as int == 0x0C || (0x0E <= c as int <= 0x1F)
  }

  predicate ControlFree(s: string)
  {
    forall i :: 0 <= i < |s| ==> !IsControl(s[i])
  }

  /** The characters of `s` that are not controls, in their order. */
  function WithoutControls(s: string): (r: string)
    ensures ControlFree(r)
    ensures |r| <= |s|
  {
    if s == [] then []
    else (if IsControl(s[0]) then [] else [s[0]]) + WithoutControls(s[1..])
  }

  /** A character survives exactly when it occurs and is not a control. */
  lemma {:induction false} WithoutControlsMembers(s: string)
    ensures forall c :: c in WithoutControls(s) <==> c in s && !IsControl(c)
  {
    if s != [] {
      WithoutControlsMembers(s[1..]);
      assert s == [s[0]] + s[1..];
    }
  }

  /** `sanitize_for_excel(s)` / `sanitize_for_json(s)`; `None` stands for Python's `None`. */
  function Sanitize(s: Option<string>): (r: string)
    ensures s.None? ==> r == []
    ensures ControlFree(r)
    ensures s.Some? ==> forall c :: c in r <==> c in s.value && !IsControl(c)
  {
    match s
    case None => []
    case Some(t) => WithoutControlsMembers(t); WithoutControls(t)
  }

  /** Deleting controls distributes over concatenation, so the characters kept
      keep their order. */
  lemma {:induction false} WithoutControlsAppend(a: string, b: string)
    ensures WithoutControls(a + b) == WithoutControls(a) + WithoutControls(b)
  {
    if a == [] {
      assert a + b == b;
    } else {
      var head := if IsControl(a[0]) then [] else [a[0]];
      var rest, wb := WithoutControls(a[1..]), WithoutControls(b);
      assert (a + b)[0] == a[0] && (a + b)[1..] == a[1..] + b;
      calc {
        WithoutControls(a + b);
        { WithoutControlsCons(a + b); }
        head + WithoutControls(a[1..] + b);
        { WithoutControlsAppend(a[1..], b); }
        head + (rest + wb);
        (head + rest) + wb;
        { WithoutControlsCons(a); }
        WithoutControls(a) + wb;
      }
    }
  }

  lemma WithoutControlsCons(s: string)
    requires s != []
    ensures WithoutControls(s) == (if IsControl(s[0]) then [] else [s[0]]) + WithoutControls(s[1..])
  {
  }

  /** A string that holds no control character comes back unchanged; with the
      postcondition of `WithoutControls` this is an if-and-only-if. */
  lemma {:induction false} WithoutControlsKeepsClean(s: string)
    requires ControlFree(s)
    ensures WithoutControls(s) == s
  {
    if s != [] {
      WithoutControlsKeepsClean(s[1..]);
    }
  }

  /** Characters that are not controls survive in place, wherever they stand. */
  lemma {:induction false} KeepsCleanMiddle(a: string, mid: string, b: string)
    requires ControlFree(mid)
    ensures WithoutControls(a + mid + b) == WithoutControls(a) + mid + WithoutControls(b)
  {
    assert a + mid + b == a + (mid + b);
    WithoutControlsKeepsClean(mid);
    WithoutControlsAppend(mid, b);
    WithoutControlsAppend(a, mid + b);
  }

  /** Tab, line feed and carriage return are kept. */
  lemma KeepsLineStructure(a: string, b: string)
    ensures Sanitize(Some(a + "\t\n\r" + b)) == Sanitize(Some(a)) + "\t\n\r" + Sanitize(Some(b))
  {
    KeepsCleanMiddle(a, "\t\n\r", b);
  }

  /** Sanitizing twice is sanitizing once. */
  lemma SanitizeIdempotent(s: Option<string>)
    ensures Sanitize(Some(Sanitize(s))) == Sanitize(s)
  {
    WithoutControlsKeepsClean(Sanitize(s));
  }
}
