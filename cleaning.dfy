/**
 * The attribution clean-up of exercise.py:175,
 *   re.sub(r"\nContributed by: .*\n", "", description)
 * written out for its one fixed pattern. A match is a newline, the literal
 * `Contributed by: `, a run of characters none of which is a newline (`.`
 * without DOTALL), and then the first newline after that run. `re.sub` is
 * called without `count`, so it scans left to right and deletes every
 * non-overlapping match, both newlines included.
 */
module Cleaning {
  import opened Wrappers

  /** The literal text of the pattern after its leading newline. */
  const Marker: string := "Contributed by: "

  /** The fixed beginning of every match: a newline, then the marker. */
  const Lead: string := "\n" + Marker

  /** `m`, as a whole, is one match of `\nContributed by: .*\n`. */
  ghost predicate IsMatch(m: string)
  {
    |m| > |Lead| && m[..|Lead|] == Lead && m[|m| - 1] == '\n' &&
    forall k :: |Lead| <= k < |m| - 1 ==> m[k] != '\n'
  }

  /** `s` contains no newline: it lies within one line. */
  predicate NewlineFree(s: string)
  {
    forall k :: 0 <= k < |s| ==> s[k] != '\n'
  }

  /** The lead occurs in `s` at index `i`. */
  predicate LeadAt(s: string, i: nat)
  {
    i + |Lead| <= |s| && s[i..i + |Lead|] == Lead
  }

  /** The pattern matches at the first position of `s`. */
  ghost predicate StartsMatch(s: string)
  {
    exists n :: 0 <= n <= |s| && IsMatch(s[..n])
  }

  /** The pattern matches somewhere in `s`. */
  ghost predicate HasMatch(s: string)
  {
    exists i, j :: 0 <= i <= j <= |s| && IsMatch(s[i..j])
  }

  /** The index of the first newline of `s` at or after `from`, if there is one. */
  function NextNewline(s: string, from: nat): (r: Option<nat>)
    requires from <= |s|
    ensures r.Some? ==> from <= r.value < |s|
    decreases |s| - from
  {
    if from == |s| then None
    else if s[from] == '\n' then Some(from)
    else NextNewline(s, from + 1)
  }

  /** `NextNewline` finds a newline, and no newline comes before it; `None` means none follows. */
  lemma {:induction false} NextNewlineFirst(s: string, from: nat)
    requires from <= |s|
    ensures NextNewline(s, from).Some? ==> s[NextNewline(s, from).value] == '\n'
    ensures forall k :: from <= k < |s| && (NextNewline(s, from).None? || k < NextNewline(s, from).value) ==> s[k] != '\n'
    decreases |s| - from
  {
    if from < |s| && s[from] != '\n' {
      NextNewlineFirst(s, from + 1);
    }
  }

  /** `s` begins with `prefix`, compared one character at a time. */
  function StartsWith(s: string, prefix: string): bool
  {
    if prefix == [] then true
    else s != [] && s[0] == prefix[0] && StartsWith(s[1..], prefix[1..])
  }

  /** The character-by-character comparison is a comparison of the leading slice. */
  lemma {:induction false} StartsWithSlice(s: string, prefix: string)
    ensures StartsWith(s, prefix) <==> |prefix| <= |s| && s[..|prefix|] == prefix
  {
    if prefix != [] && s != [] {
      StartsWithSlice(s[1..], prefix[1..]);
      if |prefix| <= |s| {
        assert s[..|prefix|] == [s[0]] + s[1..][..|prefix| - 1];
        assert prefix == [prefix[0]] + prefix[1..];
      }
    }
  }

  /**
   * The length of the match at the first position of `s`, if the pattern
   * matches there. Since `.*` cannot cross a newline, a match at a given
   * position is unique: it ends at the first newline after the lead.
   */
  function MatchLength(s: string): (r: Option<nat>)
    ensures r.Some? ==> |Lead| < r.value <= |s|
  {
    if |s| > |Lead| && StartsWith(s, Lead) then
      match NextNewline(s, |Lead|)
      case Some(j) => Some(j + 1)
      case None => None
    else None
  }

  /** What the scanner finds at the first position is a whole match. */
  lemma MatchLengthSound(s: string)
    requires MatchLength(s).Some?
    ensures IsMatch(s[..MatchLength(s).value])
  {
    var n := MatchLength(s).value;
    StartsWithSlice(s, Lead);
    NextNewlineFirst(s, |Lead|);
    assert s[..n][..|Lead|] == s[..|Lead|];
  }

  /** When the scanner finds nothing at the first position, no match starts there. */
  lemma MatchLengthNone(s: string)
    requires MatchLength(s).None?
    ensures !StartsMatch(s)
  {
    StartsWithSlice(s, Lead);
    if |s| >= |Lead| {
      NextNewlineFirst(s, |Lead|);
    }
  }

  /** A match at the first position of `s` is the one the scanner finds. */
  lemma MatchLengthComplete(s: string, n: nat)
    requires n <= |s| && IsMatch(s[..n])
    ensures MatchLength(s) == Some(n)
  {
    assert s[..|Lead|] == s[..n][..|Lead|];
    StartsWithSlice(s, Lead);
    NextNewlineFirst(s, |Lead|);
    match NextNewline(s, |Lead|)
    case Some(j) =>
      assert s[..n][j] == s[j];
      assert s[..n][n - 1] == s[n - 1];
    case None =>
  }

  /** One step of the scan: a kept character, or a deleted match. */
  datatype Piece = Kept(c: char) | Removed(m: string)

  /** The text that a list of pieces was cut from. */
  function Flatten(ps: seq<Piece>): string
  {
    if ps == [] then []
    else (match ps[0] case Kept(c) => [c] case Removed(m) => m) + Flatten(ps[1..])
  }

  /** The kept characters, in order: the output of the substitution. */
  function KeptText(ps: seq<Piece>): string
  {
    if ps == [] then []
    else (match ps[0] case Kept(c) => [c] case Removed(_) => []) + KeptText(ps[1..])
  }

  /** The total length of the deleted matches. */
  function RemovedLength(ps: seq<Piece>): nat
  {
    if ps == [] then 0
    else (match ps[0] case Kept(_) => 0 case Removed(m) => |m|) + RemovedLength(ps[1..])
  }

  /**
   * The left-to-right scan of `re.sub`: at each position, delete the match
   * starting there if there is one and resume after it; otherwise keep one
   * character and move on.
   */
  function Tokenize(s: string): (ps: seq<Piece>)
    ensures Flatten(ps) == s
    decreases |s|
  {
    if s == [] then []
    else match MatchLength(s)
      case Some(n) =>
        assert s == s[..n] + s[n..];
        [Removed(s[..n])] + Tokenize(s[n..])
      case None =>
        assert s == [s[0]] + s[1..];
        [Kept(s[0])] + Tokenize(s[1..])
  }

  /**
   * The cleaned description sent back by exercise.py:174-176: the same scan,
   * keeping only the characters it does not delete.
   */
  function Clean(s: string): (r: string)
    ensures |r| <= |s|
    decreases |s|
  {
    if s == [] then []
    else match MatchLength(s)
      case Some(n) => Clean(s[n..])
      case None => [s[0]] + Clean(s[1..])
  }

  /** The cleaned text is exactly the kept pieces of the scan. */
  lemma {:induction false} CleanIsKeptText(s: string)
    ensures Clean(s) == KeptText(Tokenize(s))
    decreases |s|
  {
    if s != [] {
      match MatchLength(s)
      case Some(n) =>
        CleanIsKeptText(s[n..]);
        assert Tokenize(s) == [Removed(s[..n])] + Tokenize(s[n..]);
      case None =>
        CleanIsKeptText(s[1..]);
        assert Tokenize(s) == [Kept(s[0])] + Tokenize(s[1..]);
    }
  }

  /** One step of the scan. */
  lemma TokenizeStep(s: string)
    requires s != []
    ensures MatchLength(s).Some? ==>
      Tokenize(s) == [Removed(s[..MatchLength(s).value])] + Tokenize(s[MatchLength(s).value..])
    ensures MatchLength(s).None? ==> Tokenize(s) == [Kept(s[0])] + Tokenize(s[1..])
  {
  }

  /** One step of the scan, seen on the cleaned text. */
  lemma CleanStep(s: string)
    requires s != []
    ensures MatchLength(s).Some? ==> Clean(s) == Clean(s[MatchLength(s).value..])
    ensures MatchLength(s).None? ==> Clean(s) == [s[0]] + Clean(s[1..])
  {
  }

  /** A list of pieces splits its text into kept characters and deleted matches. */
  lemma {:induction false} PieceLengths(ps: seq<Piece>)
    ensures |Flatten(ps)| == |KeptText(ps)| + RemovedLength(ps)
  {
    if ps != [] {
      PieceLengths(ps[1..]);
    }
  }

  /**
   * Declarative meaning of the substitution: `ps` cuts `s` into pieces where
   * every deleted piece is a whole match, and every kept character is at a
   * position where no match starts (leftmost-first, non-overlapping).
   */
  ghost predicate LeftmostParse(s: string, ps: seq<Piece>)
    decreases ps
  {
    if ps == [] then s == []
    else match ps[0]
      case Removed(m) =>
        IsMatch(m) && |m| <= |s| && s[..|m|] == m && LeftmostParse(s[|m|..], ps[1..])
      case Kept(c) =>
        s != [] && s[0] == c && !StartsMatch(s) && LeftmostParse(s[1..], ps[1..])
  }

  /** The scan yields a leftmost parse of its input. */
  lemma {:induction false} TokenizeIsLeftmostParse(s: string)
    ensures LeftmostParse(s, Tokenize(s))
    decreases |s|
  {
    if s != [] {
      match MatchLength(s)
      case Some(n) =>
        MatchLengthSound(s);
        TokenizeIsLeftmostParse(s[n..]);
      case None =>
        MatchLengthNone(s);
        TokenizeIsLeftmostParse(s[1..]);
    }
  }

  /** A leftmost parse is unique: it is the scan's. */
  lemma {:induction false} LeftmostParseUnique(s: string, ps: seq<Piece>)
    requires LeftmostParse(s, ps)
    ensures ps == Tokenize(s)
    decreases ps
  {
    if ps != [] {
      TokenizeStep(s);
      match ps[0]
      case Removed(m) =>
        MatchLengthComplete(s, |m|);
        LeftmostParseUnique(s[|m|..], ps[1..]);
      case Kept(c) =>
        if MatchLength(s).Some? {
          MatchLengthSound(s);
        }
        LeftmostParseUnique(s[1..], ps[1..]);
    }
  }

  /** The cleaned text is the input minus exactly the deleted matches. */
  lemma CleanLength(s: string)
    ensures |Clean(s)| == |s| - RemovedLength(Tokenize(s))
  {
    CleanIsKeptText(s);
    PieceLengths(Tokenize(s));
  }

  /** A text is left unchanged exactly when the pattern matches nowhere in it. */
  lemma {:induction false} CleanUnchangedIff(s: string)
    ensures Clean(s) == s <==> !HasMatch(s)
    decreases |s|
  {
    if s == [] {
      assert !HasMatch(s) by {
        forall i, j | 0 <= i <= j <= |s| ensures !IsMatch(s[i..j]) { }
      }
    } else {
      CleanStep(s);
      match MatchLength(s)
      case Some(n) =>
        MatchLengthSound(s);
        assert s[0..n] == s[..n];
        assert HasMatch(s);
      case None =>
        MatchLengthNone(s);
        CleanUnchangedIff(s[1..]);
        HasMatchShift(s);
    }
  }

  /** When no match starts at the first position, `s` has a match exactly when its tail has one. */
  lemma HasMatchShift(s: string)
    requires s != [] && !StartsMatch(s)
    ensures HasMatch(s) <==> HasMatch(s[1..])
  {
    HasMatchToTail(s);
    HasMatchFromTail(s);
  }

  /** A match in the tail of `s` is a match in `s`. */
  lemma HasMatchFromTail(s: string)
    requires s != []
    ensures HasMatch(s[1..]) ==> HasMatch(s)
  {
    if HasMatch(s[1..]) {
      var i, j :| 0 <= i <= j <= |s[1..]| && IsMatch(s[1..][i..j]);
      TailSlice(s, i, j);
    }
  }

  /** With no match at the first position, every match of `s` lies in its tail. */
  lemma HasMatchToTail(s: string)
    requires s != [] && !StartsMatch(s)
    ensures HasMatch(s) ==> HasMatch(s[1..])
  {
    if HasMatch(s) {
      var i, j :| 0 <= i <= j <= |s| && IsMatch(s[i..j]);
      MatchAtFront(s, i, j);
      if i == 0 {
        assert false;
      }
      TailSlice(s, i - 1, j - 1);
      assert IsMatch(s[1..][i - 1..j - 1]);
    }
  }

  /** A match starting at index 0 is a match at the first position. */
  lemma MatchAtFront(s: string, i: nat, j: nat)
    requires i <= j <= |s| && IsMatch(s[i..j])
    ensures i == 0 ==> StartsMatch(s)
  {
    assert s[..j] == s[0..j];
  }

  /** A slice of the tail of `s` is the slice of `s` one position further on. */
  lemma TailSlice(s: string, i: nat, j: nat)
    requires s != [] && i <= j <= |s| - 1
    ensures s[1..][i..j] == s[i + 1..j + 1]
  {
  }

  /** A description in which the lead `\nContributed by: ` never occurs is returned unchanged. */
  lemma CleanWithoutLead(s: string)
    requires forall i: nat :: !LeadAt(s, i)
    ensures Clean(s) == s
  {
    if HasMatch(s) {
      var i, j :| 0 <= i <= j <= |s| && IsMatch(s[i..j]);
      assert s[i..i + |Lead|] == s[i..j][..|Lead|];
      assert LeadAt(s, i);
    }
    CleanUnchangedIff(s);
  }

  /** A character other than a newline never begins a match: it is kept. */
  lemma CleanKeepsFirst(s: string)
    requires s != [] && s[0] != '\n'
    ensures Clean(s) == [s[0]] + Clean(s[1..])
  {
    assert !StartsWith(s, Lead);
  }

  /** Splitting off the first character of a concatenation. */
  lemma ConsSplit(p: string, t: string)
    requires p != []
    ensures (p + t)[0] == p[0] && (p + t)[1..] == p[1..] + t
    ensures p + t == [p[0]] + (p[1..] + t)
  {
  }

  /** Text before the first newline is never part of a match: it is copied, and the rest is cleaned on its own. */
  lemma {:induction false} CleanAfterNewlineFreePrefix(p: string, t: string)
    requires NewlineFree(p)
    ensures Clean(p + t) == p + Clean(t)
    decreases |p|
  {
    if p == [] {
      assert p + t == t;
    } else {
      ConsSplit(p, t);
      CleanKeepsFirst(p + t);
      CleanAfterNewlineFreePrefix(p[1..], t);
      assert p == [p[0]] + p[1..];
    }
  }

  /** A whole match at the front is deleted, and the scan resumes right after it. */
  lemma CleanAfterMatch(m: string, t: string)
    requires IsMatch(m)
    ensures Clean(m + t) == Clean(t)
  {
    var s := m + t;
    assert s[..|m|] == m;
    MatchLengthComplete(s, |m|);
    assert s[|m|..] == t;
    CleanStep(s);
  }

  /** A match found at the front of `s` is still the one found when text is appended to `s`. */
  lemma MatchLengthExtend(s: string, u: string)
    ensures MatchLength(s).Some? ==> MatchLength(s + u) == MatchLength(s)
  {
    if MatchLength(s).Some? {
      var n := MatchLength(s).value;
      MatchLengthSound(s);
      assert (s + u)[..n] == s[..n];
      MatchLengthComplete(s + u, n);
    }
  }

  /** A match at the front of `s + u` that ends within `s` is the match at the front of `s`. */
  lemma MatchLengthShrink(s: string, u: string)
    ensures MatchLength(s + u).Some? && MatchLength(s + u).value <= |s| ==> MatchLength(s) == MatchLength(s + u)
  {
    if MatchLength(s + u).Some? && MatchLength(s + u).value <= |s| {
      var n := MatchLength(s + u).value;
      MatchLengthSound(s + u);
      assert (s + u)[..n] == s[..n];
      MatchLengthComplete(s, n);
    }
  }

  /** A match starting inside a non-empty `q` ends at the latest with the newline after `q`. */
  lemma MatchLengthStopsAtNewline(q: string, y: string)
    requires q != []
    ensures MatchLength(q + "\n" + y).Some? ==> MatchLength(q + "\n" + y).value <= |q| + 1
  {
    var s := q + "\n" + y;
    if MatchLength(s).Some? && MatchLength(s).value > |q| + 1 {
      var n := MatchLength(s).value;
      MatchLengthSound(s);
      assert s[..n][|q|] == s[|q|] == '\n';
      if |q| < |Lead| {
        assert s[..n][..|Lead|][|q|] == Lead[|q|] == Marker[|q| - 1];
        MarkerNewlineFree();
      }
    }
  }

  /** What follows the newline after `q` does not change the match at the front. */
  lemma MatchLengthAcrossNewline(q: string, y: string)
    requires q != []
    ensures MatchLength(q + "\n" + y) == MatchLength(q + "\n")
  {
    MatchLengthExtend(q + "\n", y);
    MatchLengthStopsAtNewline(q, y);
    MatchLengthShrink(q + "\n", y);
  }

  /** A match inside `q` is deleted alike from `q`, from `q` with its newline, and from anything longer. */
  lemma SkipMatchBeforeNewline(q: string, y: string, n: nat)
    requires q != [] && MatchLength(q + "\n") == Some(n) && n <= |q|
    ensures Clean(q + "\n" + y) == Clean(q[n..] + "\n" + y)
    ensures Clean(q + "\n") == Clean(q[n..] + "\n")
    ensures Clean(q) == Clean(q[n..])
  {
    var s1 := q + "\n";
    MatchLengthAcrossNewline(q, y);
    MatchLengthShrink(q, "\n");
    CleanStep(s1 + y);
    CleanStep(s1);
    CleanStep(q);
    DropFromAppend(q, "\n", n);
    DropFromAppend(s1, y, n);
  }

  /** Dropping a prefix of `a` from `a + b`. */
  lemma DropFromAppend(a: string, b: string, n: nat)
    requires n <= |a|
    ensures (a + b)[n..] == a[n..] + b
  {
  }

  /** A match that ends with the newline after `q` deletes it; the scan goes on after it. */
  lemma MatchTakesNewline(q: string, y: string)
    requires q != [] && MatchLength(q + "\n") == Some(|q| + 1)
    ensures Clean(q + "\n" + y) == Clean(y)
    ensures Clean(q + "\n") == []
  {
    var s1 := q + "\n";
    MatchLengthAcrossNewline(q, y);
    CleanStep(s1 + y);
    CleanStep(s1);
    assert (s1 + y)[|q| + 1..] == y;
  }

  /** Dropping the first character of `q + a + b` drops it from `q`. */
  lemma DropFirstOfAppend(q: string, a: string, b: string)
    requires q != []
    ensures (q + a + b)[0] == q[0] && (q + a + b)[1..] == q[1..] + a + b
  {
  }

  /** With no match at the front, the first character is kept. */
  lemma KeepFirst(s: string, c: char, rest: string)
    requires s != [] && MatchLength(s).None?
    requires s[0] == c && s[1..] == rest
    ensures Clean(s) == [c] + Clean(rest)
  {
    CleanStep(s);
  }

  /** With no match at the front, the first character is kept from all three texts. */
  lemma KeepFirstBeforeNewline(q: string, y: string)
    requires q != [] && MatchLength(q + "\n").None?
    ensures Clean(q + "\n" + y) == [q[0]] + Clean(q[1..] + "\n" + y)
    ensures Clean(q + "\n") == [q[0]] + Clean(q[1..] + "\n")
    ensures Clean(q) == [q[0]] + Clean(q[1..])
  {
    MatchLengthAcrossNewline(q, y);
    MatchLengthExtend(q, "\n");
    DropFirstOfAppend(q, "\n", y);
    KeepFirst(q + "\n" + y, q[0], q[1..] + "\n" + y);
    DropFirstOfAppend(q, "\n", []);
    assert q + "\n" + [] == q + "\n";
    assert q[1..] + "\n" + [] == q[1..] + "\n";
    KeepFirst(q + "\n", q[0], q[1..] + "\n");
    KeepFirst(q, q[0], q[1..]);
  }

  /**
   * The scan of `q` followed by a newline ends inside a match that takes
   * that newline as its closing one: the last line of `q` is an attribution
   * still open.
   */
  ghost predicate TakesNewline(q: string)
    decreases |q|
  {
    if q == [] then false
    else match MatchLength(q + "\n")
      case Some(n) => n <= |q| ==> TakesNewline(q[n..])
      case None => TakesNewline(q[1..])
  }

  /**
   * The scan at a newline. Either the newline is kept, and the text before
   * it is cleaned on its own; or an attribution on the line before it,
   * still open, takes it as its closing newline (it is then gone from the
   * output), and the scan goes on after it.
   */
  lemma {:induction false} CleanAtNewline(q: string, y: string)
    ensures !TakesNewline(q) ==> Clean(q + "\n") == Clean(q) + "\n"
    ensures !TakesNewline(q) ==> Clean(q + "\n" + y) == Clean(q) + Clean("\n" + y)
    ensures TakesNewline(q) ==> |Clean(q + "\n")| <= |Clean(q)|
    ensures TakesNewline(q) ==> Clean(q + "\n" + y) == Clean(q + "\n") + Clean(y)
    decreases |q|
  {
    if q == [] {
      assert q + "\n" + y == "\n" + y && q + "\n" == "\n";
      CleanShortText("\n");
    } else {
      match MatchLength(q + "\n")
      case Some(n) =>
        if n <= |q| {
          SkipMatchBeforeNewline(q, y, n);
          CleanAtNewline(q[n..], y);
        } else {
          MatchTakesNewline(q, y);
        }
      case None =>
        KeepFirstBeforeNewline(q, y);
        CleanAtNewline(q[1..], y);
        AppendAssoc([q[0]], Clean(q[1..]), "\n");
        AppendAssoc([q[0]], Clean(q[1..]), Clean("\n" + y));
        AppendAssoc([q[0]], Clean(q[1..] + "\n"), Clean(y));
    }
  }

  /** A newline that opens a line without a closing newline does not begin a match. */
  lemma NoMatchOnUnterminatedLine(w: string)
    requires NewlineFree(w)
    ensures MatchLength("\n" + w).None?
  {
    if |"\n" + w| > |Lead| {
      NextNewlineFirst("\n" + w, |Lead|);
    }
  }

  /** A line without a closing newline, with the newline before it, is kept as it is. */
  lemma CleanUnterminatedTail(w: string)
    requires NewlineFree(w)
    ensures Clean("\n" + w) == "\n" + w
    ensures Clean(w) == w
  {
    NoMatchOnUnterminatedLine(w);
    CleanStep("\n" + w);
    assert ("\n" + w)[1..] == w;
    CleanAfterNewlineFreePrefix(w, []);
    assert w + [] == w;
  }

  /** Concatenation is associative. */
  lemma AppendAssoc(a: string, b: string, c: string)
    ensures a + (b + c) == (a + b) + c
  {
  }

  /** The last line of a text, when no newline closes it, is never deleted. */
  lemma LastLineKept(p: string, w: string)
    requires NewlineFree(w)
    ensures Clean(p + "\n" + w) == Clean(p + "\n") + w
  {
    CleanAtNewline(p, w);
    CleanUnterminatedTail(w);
    AppendAssoc(Clean(p), "\n", w);
  }

  /** The lead is a newline followed by the marker, wherever it stands. */
  lemma LeadJoin(p: string, t: string)
    ensures p + Lead + t == p + "\n" + (Marker + t)
  {
  }

  /**
   * A marker line with no newline after it (the last line of the text) is
   * left in place, after whatever the lines before it are cleaned to.
   */
  lemma CleanUnterminatedLine(p: string, t: string)
    requires NewlineFree(t)
    ensures Clean(p + Lead + t) == Clean(p + "\n") + (Marker + t)
  {
    MarkerNewlineFree();
    NewlineFreeConcat(Marker, t);
    LeadJoin(p, t);
    LastLineKept(p, Marker + t);
  }

  /** A marker at the very start of the text, with no newline before it, is never part of a match. */
  lemma CleanKeepsLeadingMarker(t: string)
    ensures Clean(Marker + t) == Marker + Clean(t)
  {
    MarkerNewlineFree();
    CleanAfterNewlineFreePrefix(Marker, t);
  }

  /**
   * An attribution line is deleted together with the newline before it and
   * the one after it, provided the newline before it is not already taken
   * by an attribution still open on the line above: the text before it and
   * the text after it are then cleaned on their own.
   */
  lemma CleanDeletesAttributionLine(q: string, author: string, tail: string)
    requires NewlineFree(author)
    requires Clean(q + "\n") == Clean(q) + "\n"
    ensures Clean(q + Lead + author + "\n" + tail) == Clean(q) + Clean(tail)
  {
    var m := Lead + author + "\n";
    CleanAtNewline(q, Marker + author + "\n" + tail);
    AttributionSplit(q, author, tail);
    AttributionLineIsMatch(author);
    CleanAfterMatch(m, tail);
  }

  /** The newline that opens an attribution line, split off on both sides. */
  lemma AttributionSplit(q: string, author: string, tail: string)
    ensures q + Lead + author + "\n" + tail == q + "\n" + (Marker + author + "\n" + tail)
    ensures "\n" + (Marker + author + "\n" + tail) == (Lead + author + "\n") + tail
  {
  }

  /**
   * An attribution on the second line of a text: the first line stays, and
   * the lines after the attribution are joined to it.
   */
  lemma CleanDeletesAttributionAfterFirstLine(head: string, author: string, tail: string)
    requires NewlineFree(head) && NewlineFree(author)
    ensures Clean(head + Lead + author + "\n" + tail) == head + Clean(tail)
  {
    var m := Lead + author + "\n";
    AttributionLineIsMatch(author);
    assert head + Lead + author + "\n" + tail == head + (m + tail);
    CleanAfterNewlineFreePrefix(head, m + tail);
    CleanAfterMatch(m, tail);
  }

  /** A line that holds no newline and does not begin with the marker cannot be an open attribution. */
  lemma LineOpensWithMarker(h: string)
    requires NewlineFree(h)
    ensures StartsWith("\n" + (h + "\n"), Lead) ==> StartsWith(h, Marker)
  {
    var s := "\n" + (h + "\n");
    if |h| < |Marker| {
      ShortLineNoLead(h);
    } else if StartsWith(s, Lead) {
      StartsWithSlice(s, Lead);
      StartsWithSlice(h, Marker);
      assert h[..|Marker|] == s[1..|Lead|] == Lead[1..] == Marker;
    }
  }

  /** A line shorter than the marker, between two newlines, never holds the lead. */
  lemma ShortLineNoLead(h: string)
    requires |h| < |Marker|
    ensures !StartsWith("\n" + (h + "\n"), Lead)
  {
    var s := "\n" + (h + "\n");
    StartsWithSlice(s, Lead);
    if |s| >= |Lead| {
      assert s[|Lead| - 1] == '\n';
      assert Lead[|Lead| - 1] == ' ';
    }
  }

  /** A line that is not an attribution, with newlines on both sides, is kept as it is. */
  lemma OrdinaryLineKept(h: string)
    requires NewlineFree(h) && !StartsWith(h, Marker)
    ensures Clean("\n" + (h + "\n")) == "\n" + (h + "\n")
  {
    var s := "\n" + (h + "\n");
    LineOpensWithMarker(h);
    CleanStep(s);
    assert s[1..] == h + "\n";
    CleanAfterNewlineFreePrefix(h, "\n");
    CleanShortText("\n");
  }

  /**
   * After a line that is not itself an attribution, the newline that ends
   * it is kept, so an attribution on the next line is deleted on its own.
   */
  lemma NewlineKeptAfterLine(p: string, h: string)
    requires NewlineFree(h) && !StartsWith(h, Marker)
    ensures Clean(p + "\n" + h + "\n") == Clean(p + "\n" + h) + "\n"
  {
    CleanAtNewline(p, h + "\n");
    CleanAtNewline(p, h);
    OrdinaryLineKept(h);
    CleanUnterminatedTail(h);
    CleanAfterNewlineFreePrefix(h, "\n");
    CleanShortText("\n");
    AppendAssoc(p + "\n", h, "\n");
    if TakesNewline(p) {
      AppendAssoc(Clean(p + "\n"), h, "\n");
    } else {
      AppendAssoc("\n", h, "\n");
      AppendAssoc(Clean(p), "\n" + h, "\n");
    }
  }

  /**
   * An attribution line after any line that is not itself an attribution:
   * the text up to that line and the text after the attribution are
   * cleaned on their own, and joined.
   */
  lemma CleanDeletesAttributionAfterLine(p: string, h: string, author: string, tail: string)
    requires NewlineFree(h) && !StartsWith(h, Marker) && NewlineFree(author)
    ensures Clean(p + "\n" + h + Lead + author + "\n" + tail) == Clean(p + "\n" + h) + Clean(tail)
  {
    NewlineKeptAfterLine(p, h);
    CleanDeletesAttributionLine(p + "\n" + h, author, tail);
  }

  /** A text no longer than the lead holds no match and is returned unchanged. */
  lemma CleanShortText(s: string)
    requires |s| <= |Lead|
    ensures Clean(s) == s
  {
    CleanUnchangedIff(s);
  }

  /** Both newlines of the attribution line go: the lines around it are joined. */
  lemma CleanJoinsSurroundingLines(s: string)
    requires s == "Header" + Lead + "Alice" + "\n" + "Footer"
    ensures Clean(s) == "HeaderFooter"
  {
    ExampleWords();
    CleanDeletesAttributionAfterFirstLine("Header", "Alice", "Footer");
    CleanAfterNewlineFreePrefix("Footer", []);
  }

  /** The words of the worked example hold no newline. */
  lemma ExampleWords()
    ensures NewlineFree("Header") && NewlineFree("Alice") && NewlineFree("Footer")
    ensures "Footer" + [] == "Footer" && "Header" + "Footer" == "HeaderFooter"
  {
  }

  /**
   * Matches do not overlap: when the first of two attribution lines in a row
   * is deleted, its match consumes the newline that would have begun the
   * second one, so the second line stays. The first is deleted when the
   * newline before it is kept (no attribution on the line above is open).
   */
  lemma CleanAdjacentAttributions(q: string, x: string, y: string, tail: string)
    requires NewlineFree(x) && NewlineFree(y)
    requires Clean(q + "\n") == Clean(q) + "\n"
    ensures Clean(q + Lead + x + "\n" + (Marker + y + tail)) == Clean(q) + ((Marker + y) + Clean(tail))
  {
    CleanDeletesAttributionLine(q, x, Marker + y + tail);
    MarkerNewlineFree();
    NewlineFreeConcat(Marker, y);
    CleanAfterNewlineFreePrefix(Marker + y, tail);
  }

  /**
   * The same on the second line
   * (`A\nContributed by: x\nContributed by: y\nB` becomes `AContributed by: y\nB`).
   */
  lemma CleanAdjacentAttributionsAfterFirstLine(head: string, x: string, y: string, tail: string)
    requires NewlineFree(head) && NewlineFree(x) && NewlineFree(y)
    ensures Clean(head + Lead + x + "\n" + (Marker + y + tail)) == head + (Marker + y) + Clean(tail)
  {
    CleanDeletesAttributionAfterFirstLine(head, x, Marker + y + tail);
    MarkerNewlineFree();
    NewlineFreeConcat(Marker, y);
    CleanAfterNewlineFreePrefix(Marker + y, tail);
  }

  /** The marker itself holds no newline. */
  lemma MarkerNewlineFree()
    ensures NewlineFree(Marker)
  {
  }

  /** Two texts without a newline make one without a newline. */
  lemma NewlineFreeConcat(a: string, b: string)
    requires NewlineFree(a) && NewlineFree(b)
    ensures NewlineFree(a + b)
  {
    forall k | 0 <= k < |a + b| ensures (a + b)[k] != '\n' {
      if k >= |a| { assert (a + b)[k] == b[k - |a|]; }
    }
  }

  /** An attribution line on its own, with both its newlines, is one whole match. */
  lemma AttributionLineIsMatch(author: string)
    requires NewlineFree(author)
    ensures IsMatch(Lead + author + "\n")
  {
    var m := Lead + author + "\n";
    assert m[..|Lead|] == Lead;
    forall k | |Lead| <= k < |m| - 1 ensures m[k] != '\n' {
      assert m[k] == author[k - |Lead|];
    }
  }

  /**
   * Cleaning is not idempotent: deleting a match can bring a kept newline
   * next to a marker and so make a new match.
   */
  lemma CleanNotIdempotent(x: string, y: string)
    requires NewlineFree(x) && NewlineFree(y)
    ensures var s := "\n" + ((Lead + x + "\n") + (Marker + y + "\n"));
      Clean(s) == "\n" + (Marker + y + "\n") && Clean(Clean(s)) == [] != Clean(s)
  {
    var m1, r := Lead + x + "\n", Marker + y + "\n";
    AttributionLineIsMatch(x);
    CleanAfterBlankLine(m1 + r);
    CleanAfterMatch(m1, r);
    MarkerNewlineFree();
    NewlineFreeConcat(Marker, y);
    CleanAfterNewlineFreePrefix(Marker + y, "\n");
    CleanShortText("\n");
    AttributionLineIsMatch(y);
    LeadSplit(y);
    CleanAfterMatch(Lead + y + "\n", []);
    assert Lead + y + "\n" + [] == Lead + y + "\n";
  }

  /** The lead is a newline followed by the marker. */
  lemma LeadSplit(y: string)
    ensures "\n" + (Marker + y + "\n") == Lead + y + "\n"
  {
  }

  /** A newline that does not begin a match is kept, and the scan goes on with the next character. */
  lemma CleanAfterBlankLine(t: string)
    requires t != [] && t[0] == '\n'
    ensures Clean("\n" + t) == "\n" + Clean(t)
  {
    var s := "\n" + t;
    if |s| > |Lead| {
      StartsWithSlice(s, Lead);
      assert s[..|Lead|][1] != Lead[1];
    }
    CleanStep(s);
    assert s[1..] == t;
  }
}
