/** Parameter templates: `template.format(query=q)` for templates whose only
    replacement field is `{query}`. */
module Templates {

  const Placeholder: string := "{query}"

  /** `t` starts with the placeholder. */
  predicate StartsWithPlaceholder(t: string)
  {
    |t| >= |Placeholder| && t[..|Placeholder|] == Placeholder
  }

  /** The placeholder occurs somewhere in `t`. */
  ghost predicate HasPlaceholder(t: string)
  {
    exists i :: 0 <= i <= |t| && StartsWithPlaceholder(t[i..])
  }

  /** Every `{query}` in `t`, scanned left to right, replaced by `q`. The
      inserted text is not scanned again. */
  function Substitute(t: string, q: string): string
    decreases |t|
  {
    if |t| == 0 then ""
    else if StartsWithPlaceholder(t) then q + Substitute(t[|Placeholder|..], q)
    else [t[0]] + Substitute(t[1..], q)
  }

  /** `params` with every value substituted, keys and order unchanged (the
      `dict(params)` copy updated in place). */
  function Expand(params: seq<(string, string)>, q: string): (r: seq<(string, string)>)
    ensures |r| == |params|
    ensures forall i :: 0 <= i < |r| ==> r[i].0 == params[i].0
    ensures forall i :: 0 <= i < |r| ==> r[i].1 == Substitute(params[i].1, q)
  {
    if |params| == 0 then []
    else [(params[0].0, Substitute(params[0].1, q))] + Expand(params[1..], q)
  }

  // ---------------------------------------------------------------------

  /** A template without the placeholder is left exactly as it is. */
  lemma {:induction false} SubstituteLiteral(t: string, q: string)
    requires !HasPlaceholder(t)
    ensures Substitute(t, q) == t
    decreases |t|
  {
    if |t| > 0 {
      assert !StartsWithPlaceholder(t[0..]);
      assert t[0..] == t;
      assert !HasPlaceholder(t[1..]) by {
        forall i | 0 <= i <= |t[1..]|
          ensures !StartsWithPlaceholder(t[1..][i..])
        {
          assert t[1..][i..] == t[i + 1..];
        }
      }
      SubstituteLiteral(t[1..], q);
    }
  }

  /** The placeholder cannot start inside a piece of text and end inside a
      following placeholder: `{` occurs in it only at the front. */
  lemma NoOverlap(pre: string, post: string)
    requires 0 < |pre| < |Placeholder|
    ensures !StartsWithPlaceholder(pre + Placeholder + post)
  {
    var s := pre + Placeholder + post;
    assert s[|pre|] == '{';
    assert Placeholder[|pre|] != '{';
  }

  /** Substitution splits at any placeholder: the text before it and the
      text after it are substituted independently, with `q` in between. */
  lemma {:induction false} SubstituteSplice(pre: string, post: string, q: string)
    ensures Substitute(pre + Placeholder + post, q)
         == Substitute(pre, q) + q + Substitute(post, q)
    decreases |pre|
  {
    var s := pre + Placeholder + post;
    var n := |Placeholder|;
    if |pre| == 0 {
      assert s == Placeholder + post;
      assert s[n..] == post;
    } else if |pre| < n {
      NoOverlap(pre, post);
      assert !StartsWithPlaceholder(pre);
      assert s[1..] == pre[1..] + Placeholder + post;
      SubstituteSplice(pre[1..], post, q);
    } else {
      assert s[..n] == pre[..n];
      if StartsWithPlaceholder(pre) {
        assert s[n..] == pre[n..] + Placeholder + post;
        SubstituteSplice(pre[n..], post, q);
      } else {
        assert s[1..] == pre[1..] + Placeholder + post;
        SubstituteSplice(pre[1..], post, q);
      }
    }
  }

  /** The usual template, literal text around one placeholder, becomes that
      text around the query. The query is inserted verbatim, even when it
      holds braces or the placeholder itself (`pre` and `post` may be empty,
      so the bare template `{query}` gives exactly `q`). */
  lemma SubstituteOnce(pre: string, post: string, q: string)
    requires !HasPlaceholder(pre) && !HasPlaceholder(post)
    ensures Substitute(pre + Placeholder + post, q) == pre + q + post
  {
    SubstituteSplice(pre, post, q);
    SubstituteLiteral(pre, q);
    SubstituteLiteral(post, q);
  }
}
