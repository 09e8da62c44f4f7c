/**
 * The few JavaScript string operations the page-discovery code relies on:
 * `includes`, `indexOf`, `replace` with a string pattern (first occurrence
 * only), and the `String.prototype.replaceAll` polyfill that every source
 * file installs.
 */
module JsString {
  import opened Wrappers

  /** `sub` occurs in `s` starting at index `i`. */
  predicate OccursAt(s: string, sub: string, i: nat) {
    i + |sub| <= |s| && s[i..i + |sub|] == sub
  }

  /** `s.indexOf(sub)`: the first index at which `sub` occurs; the empty pattern occurs at 0. */
  function IndexOf(s: string, sub: string): (r: Option<nat>)
    ensures r.Some? ==> OccursAt(s, sub, r.value)
    ensures r.Some? ==> forall j :: 0 <= j < r.value ==> !OccursAt(s, sub, j)
    ensures r.None? ==> forall j :: 0 <= j <= |s| ==> !OccursAt(s, sub, j)
    decreases |s|
  {
    if |sub| > |s| then None
    else if s[..|sub|] == sub then Some(0)
    else
      var rest := IndexOf(s[1..], sub);
      assert forall j :: 1 <= j <= |s| ==> (OccursAt(s, sub, j) <==> OccursAt(s[1..], sub, j - 1)) by {
        forall j | 1 <= j <= |s| ensures OccursAt(s, sub, j) <==> OccursAt(s[1..], sub, j - 1) {
          if j + |sub| <= |s| {
            assert s[1..][j - 1..j - 1 + |sub|] == s[j..j + |sub|];
          }
        }
      }
      match rest
      case None => None
      case Some(k) => Some(k + 1)
  }

  /** `s.includes(sub)`. */
  predicate Includes(s: string, sub: string) {
    IndexOf(s, sub).Some?
  }

  /** `s.replace(sub, rep)` with a string pattern: only the first occurrence is replaced. */
  function ReplaceFirst(s: string, sub: string, rep: string): (r: string)
    ensures Includes(s, sub) ==> |r| == |s| - |sub| + |rep|
    ensures !Includes(s, sub) ==> r == s
  {
    match IndexOf(s, sub)
    case None => s
    case Some(i) => s[..i] + rep + s[i + |sub|..]
  }

  /** A pattern that starts the string is found at 0, so `replace` swaps exactly that prefix. */
  lemma ReplacePrefix(prefix: string, rest: string, rep: string)
    ensures ReplaceFirst(prefix + rest, prefix, rep) == rep + rest
  {
    assert (prefix + rest)[..|prefix|] == prefix;
    assert (prefix + rest)[|prefix|..] == rest;
  }

  /** `replace` with a one-character pattern acts on the first place that character appears. */
  lemma ReplaceFirstChar(pre: string, c: char, post: string, rep: string)
    requires c !in pre
    ensures ReplaceFirst(pre + [c] + post, [c], rep) == pre + rep + post
  {
    var s := pre + [c] + post;
    assert s[|pre|] == c;
    IncludesChar(s, c);
    var i := IndexOf(s, [c]).value;
    IndexOfChar(s, c, i);
    assert s[..|pre|] == pre;
    assert i == |pre|;
    assert s[i + 1..] == post;
  }

  /** `replace` acts on the first place the pattern's first character appears, when the pattern is there. */
  lemma ReplaceFirstAfter(pre: string, sub: string, post: string, rep: string)
    requires |sub| > 0 && sub[0] !in pre
    ensures ReplaceFirst(pre + sub + post, sub, rep) == pre + rep + post
  {
    var s := pre + sub + post;
    assert s[|pre|..|pre| + |sub|] == sub;
    assert OccursAt(s, sub, |pre|);
    var i := IndexOf(s, sub).value;
    assert s[i..i + |sub|][0] == s[i] == sub[0];
    assert s[..|pre|] == pre;
    assert i == |pre|;
    assert s[i + |sub|..] == post;
  }

  /** A pattern whose first character the string lacks is not found: `replace` changes nothing. */
  lemma ReplaceFirstAbsent(s: string, sub: string, rep: string)
    requires |sub| > 0 && sub[0] !in s
    ensures ReplaceFirst(s, sub, rep) == s
  {
    forall j | 0 <= j <= |s| ensures !OccursAt(s, sub, j) {
      if j + |sub| <= |s| {
        assert s[j..j + |sub|][0] == s[j];
      }
    }
  }

  /** A one-character pattern occurs exactly where that character stands. */
  lemma OccursAtChar(s: string, c: char, j: nat)
    ensures OccursAt(s, [c], j) <==> j < |s| && s[j] == c
  {
    if j < |s| {
      assert s[j..j + 1] == [s[j]];
    }
  }

  /** For a one-character pattern, `includes` is plain membership. */
  lemma IncludesChar(s: string, c: char)
    ensures Includes(s, [c]) <==> c in s
  {
    if Includes(s, [c]) {
      OccursAtChar(s, c, IndexOf(s, [c]).value);
    }
    if c in s {
      var i :| 0 <= i < |s| && s[i] == c;
      OccursAtChar(s, c, i);
    }
  }

  /** The first occurrence of a one-character pattern is the first index holding that character. */
  lemma IndexOfChar(s: string, c: char, i: nat)
    requires IndexOf(s, [c]) == Some(i)
    ensures i < |s| && s[i] == c
    ensures forall j :: 0 <= j < i ==> s[j] != c
  {
    OccursAtChar(s, c, i);
    forall j | 0 <= j < i ensures s[j] != c {
      OccursAtChar(s, c, j);
    }
  }

  /**
   * Every occurrence of the character `c` in `s` replaced by `rep`, in one
   * left-to-right pass: what a native `replaceAll` with a one-character
   * pattern computes. The polyfill below is proved to agree with it.
   */
  function SubstituteChar(s: string, c: char, rep: string): (r: string)
    ensures c !in s ==> r == s
    ensures c !in rep ==> c !in r
  {
    if s == [] then []
    else (if s[0] == c then rep else [s[0]]) + SubstituteChar(s[1..], c, rep)
  }

  /** The substitution brings in no character that neither the input nor the replacement holds. */
  lemma {:induction false} SubstituteCharAvoids(s: string, c: char, rep: string, x: char)
    requires x !in s && x !in rep
    ensures x !in SubstituteChar(s, c, rep)
  {
    if s != [] {
      SubstituteCharAvoids(s[1..], c, rep, x);
      assert s[0] in s;
    }
  }

  lemma {:induction false} SubstituteCharAppend(a: string, b: string, c: char, rep: string)
    ensures SubstituteChar(a + b, c, rep) == SubstituteChar(a, c, rep) + SubstituteChar(b, c, rep)
  {
    if a == [] {
      assert a + b == b;
    } else {
      assert (a + b)[1..] == a[1..] + b;
      SubstituteCharAppend(a[1..], b, c, rep);
    }
  }

  /** The substitution of a three-part string is the three parts' substitutions joined. */
  lemma SubstituteCharAppend3(a: string, b: string, d: string, c: char, rep: string)
    ensures SubstituteChar(a + b + d, c, rep) == SubstituteChar(a, c, rep) + SubstituteChar(b, c, rep) + SubstituteChar(d, c, rep)
  {
    SubstituteCharAppend(a + b, d, c, rep);
    SubstituteCharAppend(a, b, c, rep);
  }

  /** A one-character replacement keeps the length. */
  lemma {:induction false} SubstituteCharLength(s: string, c: char, rep: string)
    requires |rep| == 1
    ensures |SubstituteChar(s, c, rep)| == |s|
  {
    if s != [] {
      SubstituteCharLength(s[1..], c, rep);
    }
  }

  /** Replacing a character by itself changes nothing: the intended meaning of `replaceAll(sep, '/')` when sep is '/'. */
  lemma {:induction false} SubstituteCharIdentity(s: string, c: char)
    ensures SubstituteChar(s, c, [c]) == s
  {
    if s != [] {
      SubstituteCharIdentity(s[1..], c);
      assert s == [s[0]] + s[1..];
    }
  }

  /** Swapping one `c` for `rep` leaves the full substitution unchanged. */
  lemma SwapKeepsSubstitution(pre: string, post: string, c: char, rep: string)
    requires c !in rep
    ensures SubstituteChar(pre + rep + post, c, rep) == SubstituteChar(pre + [c] + post, c, rep)
  {
    SubstituteCharAppend(pre + rep, post, c, rep);
    SubstituteCharAppend(pre, rep, c, rep);
    SubstituteCharAppend(pre + [c], post, c, rep);
    SubstituteCharAppend(pre, [c], c, rep);
    assert SubstituteChar([c], c, rep) == rep;
  }

  /** Swapping one `c` for a replacement without `c` removes one occurrence. */
  lemma SwapRemovesOne(pre: string, post: string, c: char, rep: string)
    requires c !in rep
    ensures multiset(pre + rep + post)[c] < multiset(pre + [c] + post)[c]
  {
    assert multiset(pre + [c] + post) == multiset(pre) + multiset{c} + multiset(post);
    assert multiset(pre + rep + post) == multiset(pre) + multiset(rep) + multiset(post);
  }

  /** One round of the polyfill's loop keeps the eventual result and removes one occurrence of `c`. */
  lemma ReplaceFirstStep(r: string, c: char, rep: string)
    requires c in r && c !in rep
    ensures SubstituteChar(ReplaceFirst(r, [c], rep), c, rep) == SubstituteChar(r, c, rep)
    ensures multiset(ReplaceFirst(r, [c], rep))[c] < multiset(r)[c]
  {
    IncludesChar(r, c);
    var i := IndexOf(r, [c]).value;
    IndexOfChar(r, c, i);
    var pre, post := r[..i], r[i + 1..];
    assert r == pre + [c] + post;
    assert ReplaceFirst(r, [c], rep) == pre + rep + post;
    SwapKeepsSubstitution(pre, post, c, rep);
    SwapRemovesOne(pre, post, c, rep);
  }

  /**
   * The `String.prototype.replaceAll` polyfill: replace the first occurrence
   * until none is left. It terminates when the pattern is one character that
   * the replacement does not contain, and then leaves no occurrence behind and
   * agrees with the one-pass substitution.
   */
  method ReplaceAll(s: string, subStr: string, replace: string) returns (result: string)
    requires |subStr| == 1 && subStr[0] !in replace
    ensures !Includes(result, subStr)
    ensures result == SubstituteChar(s, subStr[0], replace)
  {
    var c := subStr[0];
    assert subStr == [c];
    result := s;
    while Includes(result, subStr)
      invariant SubstituteChar(result, c, replace) == SubstituteChar(s, c, replace)
      decreases multiset(result)[c]
    {
      IncludesChar(result, c);
      ReplaceFirstStep(result, c, replace);
      result := ReplaceFirst(result, subStr, replace);
    }
    IncludesChar(result, c);
  }

  /**
   * The polyfill as written, when the replacement equals the pattern (as
   * `replaceAll(path.sep, '/')` does wherever `path.sep` is '/'): the loop
   * guard stays true and `replace` returns its input, so the loop never ends.
   */
  lemma PolyfillStallsWhenReplacementIsPattern(s: string, c: char)
    requires c in s
    ensures Includes(s, [c]) && ReplaceFirst(s, [c], [c]) == s
  {
    IncludesChar(s, c);
    var i := IndexOf(s, [c]).value;
    IndexOfChar(s, c, i);
    assert s == s[..i] + [c] + s[i + 1..];
  }
}
