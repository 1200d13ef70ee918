/**
 * Escaping of parentheses in tag files (`escape_parentheses` and
 * `process_files_in_directory`): every '(' or ')' that is not already preceded
 * by a backslash in the input gets one inserted before it.
 */
module Escape {
  import opened Text
  import opened Files

  predicate IsParen(c: char) {
    c == '(' || c == ')'
  }

  /** The loop's test at index `i`: a parenthesis at the start, or one whose
      preceding input character is not a backslash. */
  predicate NeedsEscape(s: string, i: nat)
    requires i < |s|
  {
    IsParen(s[i]) && (i == 0 || s[i - 1] != '\\')
  }

  /** What the loop appends for index `i`. */
  function Piece(s: string, i: nat): string
    requires i < |s|
  {
    if NeedsEscape(s, i) then ['\\', s[i]] else [s[i]]
  }

  /** The joined result after the first `i` iterations. */
  function EscapeUpTo(s: string, i: nat): string
    requires i <= |s|
  {
    if i == 0 then "" else EscapeUpTo(s, i - 1) + Piece(s, i - 1)
  }

  /** `escape_parentheses(s)` */
  function Escaped(s: string): string {
    EscapeUpTo(s, |s|)
  }

  /** The number of parentheses among the first `i` that get a backslash. */
  function Unescaped(s: string, i: nat): nat
    requires i <= |s|
  {
    if i == 0 then 0 else Unescaped(s, i - 1) + if NeedsEscape(s, i - 1) then 1 else 0
  }

  /** Every parenthesis of `r` is immediately preceded by a backslash. */
  predicate AllEscaped(r: string) {
    forall k :: 0 <= k < |r| && IsParen(r[k]) ==> 0 < k && r[k - 1] == '\\'
  }

  /** `escape_parentheses(text)`: the index loop appending to `result`. */
  method EscapeParentheses(text: string) returns (r: string)
    ensures r == Escaped(text)
  {
    r := "";
    var i := 0;
    while i < |text|
      invariant i <= |text|
      invariant r == EscapeUpTo(text, i)
    {
      if text[i] == '(' && (i == 0 || text[i - 1] != '\\') {
        r := r + "\\(";
      } else if text[i] == ')' && (i == 0 || text[i - 1] != '\\') {
        r := r + "\\)";
      } else {
        r := r + [text[i]];
      }
      i := i + 1;
    }
  }

  // ---------------------------------------------------------------------------
  // Properties of the rewrite

  lemma {:induction false} EscapeUpToLength(s: string, i: nat)
    requires i <= |s|
    ensures |EscapeUpTo(s, i)| == i + Unescaped(s, i)
  {
    if i > 0 {
      EscapeUpToLength(s, i - 1);
    }
  }

  /** The output length is the input length plus the number of parentheses
      that were not already escaped. */
  lemma EscapedLength(s: string)
    ensures |Escaped(s)| == |s| + Unescaped(s, |s|)
  {
    EscapeUpToLength(s, |s|);
  }

  lemma {:induction false} EscapeUpToPrefix(s: string, i: nat, j: nat)
    requires i <= j <= |s|
    ensures EscapeUpTo(s, i) <= EscapeUpTo(s, j)
    decreases j
  {
    if i < j {
      EscapeUpToPrefix(s, i, j - 1);
    }
  }

  /** Each input character is copied, in order, to the position after the
      backslashes inserted up to and including it; an inserted backslash sits
      right before the parenthesis it escapes. */
  lemma CopiedInOrder(s: string, i: nat)
    requires i < |s|
    ensures i + Unescaped(s, i + 1) < |Escaped(s)|
    ensures Escaped(s)[i + Unescaped(s, i + 1)] == s[i]
    ensures NeedsEscape(s, i) ==> Escaped(s)[i + Unescaped(s, i + 1) - 1] == '\\'
  {
    EscapeUpToPrefix(s, i + 1, |s|);
    EscapeUpToLength(s, i + 1);
    EscapeUpToLength(s, i);
    var e := EscapeUpTo(s, i + 1);
    assert e == EscapeUpTo(s, i) + Piece(s, i);
    assert Escaped(s)[..|e|] == e;
  }

  /** The last character written is the last character read. */
  lemma EscapeUpToLast(s: string, i: nat)
    requires 0 < i <= |s|
    ensures |EscapeUpTo(s, i)| > 0 && EscapeUpTo(s, i)[|EscapeUpTo(s, i)| - 1] == s[i - 1]
  {
    assert EscapeUpTo(s, i) == EscapeUpTo(s, i - 1) + Piece(s, i - 1);
  }

  lemma {:induction false} EscapeUpToAllEscaped(s: string, i: nat)
    requires i <= |s|
    ensures AllEscaped(EscapeUpTo(s, i))
  {
    if i > 0 {
      EscapeUpToAllEscaped(s, i - 1);
      var e, p := EscapeUpTo(s, i - 1), Piece(s, i - 1);
      var r := e + p;
      assert r == EscapeUpTo(s, i);
      forall k | 0 <= k < |r| && IsParen(r[k]) ensures 0 < k && r[k - 1] == '\\' {
        if k < |e| {
          assert r[k] == e[k] && r[k - 1] == e[k - 1];
        } else if !NeedsEscape(s, i - 1) {
          EscapeUpToLast(s, i - 1);
          assert r[k - 1] == e[|e| - 1];
        }
      }
    }
  }

  /** Every parenthesis of the output is escaped. */
  lemma EscapedAllEscaped(s: string)
    ensures AllEscaped(Escaped(s))
  {
    EscapeUpToAllEscaped(s, |s|);
  }

  lemma {:induction false} NothingToEscape(t: string, i: nat)
    requires i <= |t| && Unescaped(t, i) == 0
    ensures EscapeUpTo(t, i) == t[..i]
  {
    if i > 0 {
      NothingToEscape(t, i - 1);
      assert t[..i] == t[..i - 1] + [t[i - 1]];
    }
  }

  lemma {:induction false} AllEscapedNoneUnescaped(t: string, i: nat)
    requires i <= |t| && AllEscaped(t)
    ensures Unescaped(t, i) == 0
  {
    if i > 0 {
      AllEscapedNoneUnescaped(t, i - 1);
    }
  }

  /** The strings the rewrite leaves unchanged are exactly those whose every
      parenthesis is already escaped. */
  lemma FixedPoints(t: string)
    ensures Escaped(t) == t <==> AllEscaped(t)
  {
    if AllEscaped(t) {
      AllEscapedNoneUnescaped(t, |t|);
      NothingToEscape(t, |t|);
    } else {
      EscapedAllEscaped(t);
    }
  }

  /** `escape_parentheses(escape_parentheses(s)) == escape_parentheses(s)`. */
  lemma Idempotent(s: string)
    ensures Escaped(Escaped(s)) == Escaped(s)
  {
    EscapedAllEscaped(s);
    FixedPoints(Escaped(s));
  }

  // ---------------------------------------------------------------------------
  // process_files_in_directory

  /** The directory after every listed `.txt` file has been escaped. */
  function ProcessAll(dir: Dir, files: seq<string>): (r: Dir)
    ensures r.Keys == dir.Keys
  {
    map n | n in dir :: if EndsWith(n, ".txt") && n in files then Escaped(dir[n]) else dir[n]
  }

  /** The files that are written back: listed `.txt` files whose escaped
      content differs from the original. */
  function Changed(dir: Dir, files: seq<string>): set<string> {
    set n | n in dir && n in files && EndsWith(n, ".txt") && Escaped(dir[n]) != dir[n]
  }

  /** Listing one more name that is not a `.txt` file of the directory
      changes nothing. */
  lemma ProcessSkip(dir: Dir, p: seq<string>, f: string)
    requires !(EndsWith(f, ".txt") && f in dir)
    ensures ProcessAll(dir, p + [f]) == ProcessAll(dir, p)
    ensures Changed(dir, p + [f]) == Changed(dir, p)
  {
  }

  /** Listing one more `.txt` file of the directory escapes it. */
  lemma ProcessTxt(dir: Dir, p: seq<string>, f: string)
    requires EndsWith(f, ".txt") && f in dir
    ensures ProcessAll(dir, p + [f]) == ProcessAll(dir, p)[f := Escaped(dir[f])]
  {
    var d, d' := ProcessAll(dir, p), ProcessAll(dir, p + [f]);
    forall n | n in dir ensures d'[n] == d[f := Escaped(dir[f])][n] {
      assert n in p + [f] <==> n in p || n == f;
    }
  }

  /** It joins the files written back exactly when escaping changes it. */
  lemma ChangedTxt(dir: Dir, p: seq<string>, f: string)
    requires EndsWith(f, ".txt") && f in dir
    ensures Changed(dir, p + [f]) == Changed(dir, p) + if Escaped(dir[f]) != dir[f] then {f} else {}
  {
    assert forall n :: n in p + [f] <==> n in p || n == f;
  }

  /** A `.txt` file listed before is already escaped; one not listed before
      is as it was and has not been written back. */
  lemma ProcessedBefore(dir: Dir, p: seq<string>, f: string)
    requires EndsWith(f, ".txt") && f in dir
    ensures f in p ==> ProcessAll(dir, p)[f] == Escaped(dir[f])
    ensures f !in p ==> ProcessAll(dir, p)[f] == dir[f] && f !in Changed(dir, p)
  {
  }

  /** The loop's state: the directory and the files written back so far. */
  datatype State = State(dir: Dir, rewritten: seq<string>)

  /** One iteration, for the listed name `f`. */
  function Step(st: State, f: string): State {
    if EndsWith(f, ".txt") && f in st.dir && Escaped(st.dir[f]) != st.dir[f] then
      State(st.dir[f := Escaped(st.dir[f])], st.rewritten + [f])
    else st
  }

  function Run(dir: Dir, files: seq<string>, i: nat): State
    requires i <= |files|
  {
    if i == 0 then State(dir, []) else Step(Run(dir, files, i - 1), files[i - 1])
  }

  /** `process_files_in_directory(directory)` over the listing `files`; also
      returns, in listing order, the files it wrote back. A listed name that
      cannot be opened is skipped, as the `except` branch does. */
  method ProcessFiles(dir: Dir, files: seq<string>) returns (dir': Dir, rewritten: seq<string>)
    ensures dir' == ProcessAll(dir, files)
    ensures forall n :: n in rewritten <==> n in Changed(dir, files)
  {
    dir' := dir;
    rewritten := [];
    for i := 0 to |files|
      invariant State(dir', rewritten) == Run(dir, files, i)
    {
      var filename := files[i];
      if EndsWith(filename, ".txt") && filename in dir' {
        var content := dir'[filename];
        var modified := EscapeParentheses(content);
        if content != modified {
          dir' := dir'[filename := modified];
          rewritten := rewritten + [filename];
        }
      }
    }
    RunProcessAll(dir, files, |files|);
    assert files[..|files|] == files;
  }

  /** The loop escapes each listed `.txt` file once, whatever the order or
      repetitions of the listing, and writes back exactly those it changes. */
  lemma {:induction false} RunProcessAll(dir: Dir, files: seq<string>, i: nat)
    requires i <= |files|
    ensures Run(dir, files, i).dir == ProcessAll(dir, files[..i])
    ensures forall n :: n in Run(dir, files, i).rewritten <==> n in Changed(dir, files[..i])
  {
    if i > 0 {
      RunProcessAll(dir, files, i - 1);
      var p, f := files[..i - 1], files[i - 1];
      assert files[..i] == p + [f];
      var st := Run(dir, files, i - 1);
      assert Run(dir, files, i) == Step(st, f);
      if EndsWith(f, ".txt") && f in dir {
        StepTxt(dir, p, f, st);
      } else {
        StepSkip(dir, p, f, st);
      }
    }
  }

  /** One listed `.txt` file of the directory keeps the loop on track. */
  lemma StepTxt(dir: Dir, p: seq<string>, f: string, st: State)
    requires EndsWith(f, ".txt") && f in dir
    requires st.dir == ProcessAll(dir, p) && forall n :: n in st.rewritten <==> n in Changed(dir, p)
    ensures Step(st, f).dir == ProcessAll(dir, p + [f])
    ensures forall n :: n in Step(st, f).rewritten <==> n in Changed(dir, p + [f])
  {
    ProcessTxt(dir, p, f);
    ChangedTxt(dir, p, f);
    ProcessedBefore(dir, p, f);
    Idempotent(dir[f]);
    if f !in p && Escaped(dir[f]) != dir[f] {
      assert Step(st, f) == State(st.dir[f := Escaped(dir[f])], st.rewritten + [f]);
    } else {
      assert Step(st, f) == st;
      assert st.dir == st.dir[f := Escaped(dir[f])];
    }
  }

  /** Any other listed name leaves the loop's state and the target alone. */
  lemma StepSkip(dir: Dir, p: seq<string>, f: string, st: State)
    requires !(EndsWith(f, ".txt") && f in dir)
    requires st.dir == ProcessAll(dir, p) && forall n :: n in st.rewritten <==> n in Changed(dir, p)
    ensures Step(st, f).dir == ProcessAll(dir, p + [f])
    ensures forall n :: n in Step(st, f).rewritten <==> n in Changed(dir, p + [f])
  {
    ProcessSkip(dir, p, f);
    assert Step(st, f) == st;
  }

  /** Processing an already processed directory changes nothing and writes
      no file. */
  lemma ProcessIdempotent(dir: Dir, files: seq<string>)
    ensures ProcessAll(ProcessAll(dir, files), files) == ProcessAll(dir, files)
    ensures Changed(ProcessAll(dir, files), files) == {}
  {
    var d := ProcessAll(dir, files);
    forall n | n in d && EndsWith(n, ".txt") && n in files
      ensures Escaped(d[n]) == d[n]
    {
      Idempotent(dir[n]);
    }
  }
}
