/**
 * parseMethodComment: pulls the `@param` and `@return` type hints out of a
 * method's doc comment. The comment delimiters are stripped, the text is
 * split on '@', and each fragment whose first five (six) characters read
 * `param` (`return`) in any case contributes a type hint; its words are
 * split on single spaces.
 */
module DocComment {
  import opened Optional
  import opened PhpStrings

  /** The array parseMethodComment returns: `['return' => type, 'param' => [name => type]]`. */
  datatype ParsedComment = ParsedComment(returnType: string, params: map<string, string>)

  /** The text the three `str_replace` calls remove, in their order. */
  const OpenDelimiter: string := "/**"
  const Star: string := "*"
  const CloseDelimiter: string := "*/"

  // The three `str_replace` calls: the opening delimiter, then every star,
  // then the closing delimiter. The last can no longer match, because no
  // star is left, so a closing slash stays in the text.
  function StripDelimiters(comment: string): (r: string)
    ensures '*' !in r
    ensures r == RemoveAll(RemoveAll(comment, OpenDelimiter), Star)
  {
    var noStars := RemoveAll(RemoveAll(comment, OpenDelimiter), Star);
    RemoveCharExact(RemoveAll(comment, OpenDelimiter), '*');
    RemoveAllNoFirstChar(noStars, CloseDelimiter);
    RemoveAll(noStars, CloseDelimiter)
  }

  /** The '@'-separated fragments of a comment (`$exploded`). */
  function Fragments(comment: string): (frags: seq<string>)
    ensures |frags| >= 1
  {
    Explode('@', StripDelimiters(comment))
  }

  /** No fragment holds an '@' or a star: both were consumed before the split. */
  lemma FragmentsClean(comment: string)
    ensures forall i :: 0 <= i < |Fragments(comment)| ==> '@' !in Fragments(comment)[i] && '*' !in Fragments(comment)[i]
  {
    var text := StripDelimiters(comment);
    var frags := Explode('@', text);
    ImplodeExplode('@', text);
    ExplodePiecesClean('@', text);
    forall i | 0 <= i < |frags| ensures '*' !in frags[i] { PieceOfImplode('@', frags, i); }
  }

  /** Every piece of a join occurs in it. */
  lemma {:induction false} PieceOfImplode(sep: char, parts: seq<string>, i: nat)
    requires |parts| >= 1 && i < |parts|
    ensures forall c :: c in parts[i] ==> c in Implode(sep, parts)
    decreases |parts|
  {
    if i > 0 {
      PieceOfImplode(sep, parts[1..], i - 1);
      assert parts[1..][i - 1] == parts[i];
    }
  }

  /** A fragment whose first five characters read `param` in any case. */
  predicate IsParamTag(fragment: string) {
    StartsWithNoCase(fragment, "param")
  }

  /** A fragment whose first six characters read `return` in any case. */
  predicate IsReturnTag(fragment: string) {
    StartsWithNoCase(fragment, "return")
  }

  /** `trim($words[1])`: the type named by a tag fragment. */
  function TagType(fragment: string): string {
    Trim(Word(Explode(' ', fragment), 1))
  }

  /** `trim(str_replace('$', '', $words[2]))`: the variable named by a `param` fragment. */
  function ParamName(fragment: string): string {
    Trim(RemoveAll(Word(Explode(' ', fragment), 2), "$"))
  }

  /** What one fragment contributes to the result. */
  datatype Tag = Param(varName: string, typeName: string) | Return(typeName: string) | Other

  /** The branch the loop body takes for one fragment, and what it reads from it. */
  function Classify(fragment: string): Tag {
    if IsParamTag(fragment) then Param(ParamName(fragment), TagType(fragment))
    else if IsReturnTag(fragment) then Return(TagType(fragment))
    else Other
  }

  /** The contribution of each fragment, in order. */
  function ClassifyAll(frags: seq<string>): seq<Tag> {
    seq(|frags|, i requires 0 <= i < |frags| => Classify(frags[i]))
  }

  /** Fragments are classified one at a time: classifying distributes over concatenation. */
  lemma ClassifyAllConcat(a: seq<string>, b: seq<string>)
    ensures ClassifyAll(a + b) == ClassifyAll(a) + ClassifyAll(b)
  {
    var x, xa, xb := ClassifyAll(a + b), ClassifyAll(a), ClassifyAll(b);
    forall i | 0 <= i < |a| ensures x[i] == xa[i] {
      assert (a + b)[i] == a[i];
    }
    forall i | 0 <= i < |b| ensures x[|a| + i] == xb[i] {
      assert (a + b)[|a| + i] == b[i];
    }
    TagsConcat(x, xa, xb);
  }

  lemma TagsConcat(x: seq<Tag>, xa: seq<Tag>, xb: seq<Tag>)
    requires |x| == |xa| + |xb|
    requires forall i :: 0 <= i < |xa| ==> x[i] == xa[i]
    requires forall i :: 0 <= i < |xb| ==> x[|xa| + i] == xb[i]
    ensures x == xa + xb
  {
    forall i | 0 <= i < |x| ensures x[i] == (xa + xb)[i] {
      if i >= |xa| {
        assert x[|xa| + (i - |xa|)] == xb[i - |xa|];
      }
    }
  }

  /** The `$params` map after the loop has seen fragments with these tags. */
  function ParamsOf(tags: seq<Tag>): map<string, string>
    decreases |tags|
  {
    if tags == [] then map[]
    else
      var before := ParamsOf(tags[..|tags| - 1]);
      match tags[|tags| - 1]
      case Param(v, t) => before[v := t]
      case _ => before
  }

  /** `$ret['return']` after the loop has seen fragments with these tags; None while unset. */
  function ReturnOf(tags: seq<Tag>): Option<string>
    decreases |tags|
  {
    if tags == [] then None
    else
      match tags[|tags| - 1]
      case Return(t) => Some(t)
      case _ => ReturnOf(tags[..|tags| - 1])
  }

  /** What parseMethodComment returns for a comment (`false` reads as ''). */
  function ParseComment(comment: Option<string>): ParsedComment {
    var tags := ClassifyAll(Fragments(comment.GetOr("")));
    ParsedComment(ReturnOf(tags).GetOr(""), ParamsOf(tags))
  }

  /** The parser's loop over the fragments, filling `$params` and `$ret` in place. */
  method ParseMethodComment(comment: Option<string>) returns (parsed: ParsedComment)
    ensures parsed == ParseComment(comment)
  {
    var exploded := Fragments(comment.GetOr(""));
    ghost var tags := ClassifyAll(exploded);
    var params: map<string, string>, ret: Option<string> := map[], None;
    var i := 0;
    while i < |exploded|
      invariant 0 <= i <= |exploded|
      invariant params == ParamsOf(tags[..i])
      invariant ret == ReturnOf(tags[..i])
    {
      var value := exploded[i];
      FoldStep(tags, i);
      ClassifyCases(value);
      if IsParamTag(value) {
        params := params[ParamName(value) := TagType(value)];
      } else if IsReturnTag(value) {
        ret := Some(TagType(value));
      }
      i := i + 1;
    }
    assert tags[..i] == tags;
    parsed := ParsedComment(ret.GetOr(""), params);
  }

  /** One more fragment updates the registers the way the loop body does. */
  lemma FoldStep(tags: seq<Tag>, i: nat)
    requires i < |tags|
    ensures ParamsOf(tags[..i + 1]) ==
      if tags[i].Param? then ParamsOf(tags[..i])[tags[i].varName := tags[i].typeName] else ParamsOf(tags[..i])
    ensures ReturnOf(tags[..i + 1]) == if tags[i].Return? then Some(tags[i].typeName) else ReturnOf(tags[..i])
  {
    assert tags[..i + 1][..i] == tags[..i];
  }

  /** What the loop body reads from a fragment in each of its branches. */
  lemma ClassifyCases(fragment: string)
    ensures IsParamTag(fragment) ==> Classify(fragment) == Param(ParamName(fragment), TagType(fragment))
    ensures !IsParamTag(fragment) && IsReturnTag(fragment) ==> Classify(fragment) == Return(TagType(fragment))
    ensures !IsParamTag(fragment) && !IsReturnTag(fragment) ==> Classify(fragment) == Other
  {
  }

  // ---------------------------------------------------------------------
  // Properties of the parser
  // ---------------------------------------------------------------------

  /** The `param` test at line 124 compares the first five characters, each in either case. */
  lemma ParamTagIff(f: string)
    ensures IsParamTag(f) <==> |f| >= 5 && forall k :: 0 <= k < 5 ==> f[k] == "param"[k] || f[k] == "PARAM"[k]
  {
    StartsWithNoCaseIff(f, "param", "PARAM");
  }

  /** The `return` test compares the first six characters, each in either case. */
  lemma ReturnTagIff(f: string)
    ensures IsReturnTag(f) <==> |f| >= 6 && forall k :: 0 <= k < 6 ==> f[k] == "return"[k] || f[k] == "RETURN"[k]
  {
    StartsWithNoCaseIff(f, "return", "RETURN");
  }

  /**
   * A fragment becomes a `param` tag exactly when it passes the `param`
   * test, and a `return` tag exactly when it passes only the `return` test;
   * a `param` tag carries the name and the type read from its words.
   */
  lemma ClassifySpec(f: string)
    ensures Classify(f).Param? <==> IsParamTag(f)
    ensures Classify(f).Return? <==> !IsParamTag(f) && IsReturnTag(f)
    ensures Classify(f).Param? ==> Classify(f).varName == ParamName(f) && Classify(f).typeName == TagType(f)
    ensures Classify(f).Return? ==> Classify(f).typeName == TagType(f)
    ensures !Classify(f).Other? ==> ' ' !in Classify(f).typeName
    ensures Classify(f).Param? ==> '$' !in Classify(f).varName
  {
    WordClean(' ', f, 1);
    TrimOmits(Word(Explode(' ', f), 1), ' ');
    var named := Word(Explode(' ', f), 2);
    RemoveCharExact(named, '$');
    TrimOmits(RemoveAll(named, "$"), '$');
  }

  /** No fragment is both a `param` and a `return` tag. */
  lemma TagsExclusive(f: string)
    ensures !(IsParamTag(f) && IsReturnTag(f))
  {
    if |f| >= 6 {
      assert Lower(f[..5])[0] == LowerChar(f[0]) == Lower(f[..6])[0];
    }
  }

  /** The tag `t` declares a type for the parameter named `v`. */
  predicate Declares(t: Tag, v: string) {
    t.Param? && t.varName == v
  }

  /** `j` is the last of `tags` that declares `v`. */
  predicate LastDeclaration(tags: seq<Tag>, v: string, j: int) {
    0 <= j < |tags| && Declares(tags[j], v) &&
    forall k :: j < k < |tags| ==> !Declares(tags[k], v)
  }

  /** A variable has a parameter hint exactly when some `param` fragment names it. */
  lemma {:induction false} ParamsDomain(tags: seq<Tag>, v: string)
    ensures v in ParamsOf(tags) <==> exists i :: 0 <= i < |tags| && Declares(tags[i], v)
    decreases |tags|
  {
    if tags != [] {
      var n := |tags| - 1;
      var init := tags[..n];
      ParamsDomain(init, v);
      if Declares(tags[n], v) {
        assert 0 <= n < |tags| && Declares(tags[n], v);
      } else if v in ParamsOf(init) {
        var i :| 0 <= i < n && Declares(init[i], v);
        assert tags[i] == init[i];
      } else {
        forall i | 0 <= i < |tags| ensures !Declares(tags[i], v) {
          if i < n { assert init[i] == tags[i]; }
        }
      }
    }
  }

  /** The hint is the type of the LAST `param` fragment naming the variable. */
  lemma {:induction false} ParamsLastWins(tags: seq<Tag>, v: string, j: int)
    requires LastDeclaration(tags, v, j)
    ensures v in ParamsOf(tags) && ParamsOf(tags)[v] == tags[j].typeName
    decreases |tags|
  {
    var n := |tags| - 1;
    var init := tags[..n];
    if j < n {
      assert !Declares(tags[n], v);
      assert LastDeclaration(init, v, j) by {
        assert init[j] == tags[j];
        forall k | j < k < |init| ensures !Declares(init[k], v) { assert init[k] == tags[k]; }
      }
      ParamsLastWins(init, v, j);
    }
  }

  /** `j` is the last `return` among `tags`. */
  predicate LastReturn(tags: seq<Tag>, j: int) {
    0 <= j < |tags| && tags[j].Return? &&
    forall k :: j < k < |tags| ==> !tags[k].Return?
  }

  /**
   * `$ret['return']` stays unset exactly when no fragment is a `return`
   * tag; otherwise it holds the type of the LAST `return` fragment.
   */
  lemma {:induction false} ReturnLastWins(tags: seq<Tag>)
    ensures ReturnOf(tags).None? <==> forall i :: 0 <= i < |tags| ==> !tags[i].Return?
    ensures forall j :: LastReturn(tags, j) ==> ReturnOf(tags) == Some(tags[j].typeName)
    decreases |tags|
  {
    if tags != [] {
      var n := |tags| - 1;
      var init := tags[..n];
      ReturnLastWins(init);
      assert forall i :: 0 <= i < n ==> init[i] == tags[i];
      if tags[n].Return? {
        assert forall j :: LastReturn(tags, j) ==> j == n;
      } else {
        forall j | LastReturn(tags, j) ensures ReturnOf(tags) == Some(tags[j].typeName) {
          assert LastReturn(init, j);
        }
      }
    }
  }

  /**
   * The parsed parameter map of a comment holds `v` exactly when a `param`
   * fragment names `v`, with the type from the last such fragment.
   */
  lemma CommentParams(comment: Option<string>, v: string, j: nat)
    requires var frags := Fragments(comment.GetOr(""));
      j < |frags| && IsParamTag(frags[j]) && ParamName(frags[j]) == v &&
      forall k :: j < k < |frags| ==> !(IsParamTag(frags[k]) && ParamName(frags[k]) == v)
    ensures v in ParseComment(comment).params
    ensures ParseComment(comment).params[v] == TagType(Fragments(comment.GetOr(""))[j])
  {
    var frags := Fragments(comment.GetOr(""));
    var tags := ClassifyAll(frags);
    forall k | 0 <= k < |frags| ensures Declares(tags[k], v) <==> IsParamTag(frags[k]) && ParamName(frags[k]) == v {
      ClassifyDeclares(frags[k], v);
    }
    assert LastDeclaration(tags, v, j);
    ParamsLastWins(tags, v, j);
  }

  /**
   * The parsed parameter map of a comment holds `v` exactly when some
   * fragment is a `param` tag naming `v`.
   */
  lemma CommentParamsDomain(comment: Option<string>, v: string)
    ensures v in ParseComment(comment).params <==>
      exists k :: 0 <= k < |Fragments(comment.GetOr(""))| &&
        IsParamTag(Fragments(comment.GetOr(""))[k]) && ParamName(Fragments(comment.GetOr(""))[k]) == v
  {
    var frags := Fragments(comment.GetOr(""));
    var tags := ClassifyAll(frags);
    forall k | 0 <= k < |frags| ensures Declares(tags[k], v) <==> IsParamTag(frags[k]) && ParamName(frags[k]) == v {
      ClassifyDeclares(frags[k], v);
    }
    ParamsDomain(tags, v);
  }

  /** A fragment's tag declares `v` exactly when it is a `param` fragment naming `v`. */
  lemma ClassifyDeclares(fragment: string, v: string)
    ensures Declares(Classify(fragment), v) <==> IsParamTag(fragment) && ParamName(fragment) == v
  {
  }

  /** Without a `return` fragment the return type is '' (the field is always set). */
  lemma NoReturnTagGivesEmpty(comment: Option<string>)
    requires forall i :: 0 <= i < |Fragments(comment.GetOr(""))| ==> !IsReturnTag(Fragments(comment.GetOr(""))[i])
    ensures ParseComment(comment).returnType == ""
  {
    ReturnLastWins(ClassifyAll(Fragments(comment.GetOr(""))));
  }

  /** A method without a doc comment (`false`) gets no hints and the return type ''. */
  lemma MissingCommentGivesNothing()
    ensures ParseComment(None) == ParsedComment("", map[])
  {
    assert StripDelimiters("") == "";
    assert Fragments("") == [""];
    assert ClassifyAll([""]) == [Other];
    assert [Other][..0] == [];
  }

  /** A tag fragment without a second space-separated word names the type ''. */
  lemma {:induction false} MissingWordGivesEmpty(fragment: string)
    requires ' ' !in fragment
    ensures TagType(fragment) == ""
    ensures ParamName(fragment) == ""
  {
    ExplodeNoSep(' ', fragment);
  }

  /**
   * A comment whose last `return` fragment has no second word gives the
   * return type '' rather than a missing field.
   */
  lemma ReturnWithoutWordGivesEmpty(comment: Option<string>, j: nat)
    requires var frags := Fragments(comment.GetOr(""));
      j < |frags| && IsReturnTag(frags[j]) && ' ' !in frags[j] &&
      forall k :: j < k < |frags| ==> !IsReturnTag(frags[k])
    ensures ParseComment(comment).returnType == ""
  {
    var frags := Fragments(comment.GetOr(""));
    var tags := ClassifyAll(frags);
    TagsExclusive(frags[j]);
    assert LastReturn(tags, j);
    ReturnLastWins(tags);
    MissingWordGivesEmpty(frags[j]);
  }

  // ---------------------------------------------------------------------
  // How a single fragment is read
  // ---------------------------------------------------------------------

  /** A word that `trim` leaves alone, and so also one without spaces. */
  predicate IsPlainWord(w: string) {
    forall c :: c in w ==> !IsTrimChar(c)
  }

  /** A fragment that starts with `param` in lower case is a `param` tag. */
  lemma ParamTagByPrefix(f: string)
    requires |f| >= 5 && f[..5] == "param"
    ensures IsParamTag(f)
  {
    assert Lower("param") == "param";
  }

  /** A fragment that starts with `return` in lower case is a `return` tag only. */
  lemma ReturnTagByPrefix(f: string)
    requires |f| >= 6 && f[..6] == "return"
    ensures IsReturnTag(f) && !IsParamTag(f)
  {
    assert Lower("return") == "return";
    assert f[..5][0] == 'r';
    assert Lower(f[..5])[0] == 'r';
  }

  /** The second word, when it is plain, is the tag's type. */
  lemma TypeFromWords(f: string, first: string, typeName: string, more: seq<string>)
    requires Explode(' ', f) == [first, typeName] + more
    requires IsPlainWord(typeName)
    ensures TagType(f) == typeName
  {
    assert Explode(' ', f)[1] == typeName;
    TrimClean(typeName);
  }

  /** The third word, a '$' and a plain name, gives the name. */
  lemma NameFromWords(f: string, first: string, second: string, varName: string, more: seq<string>)
    requires Explode(' ', f) == [first, second, "$" + varName] + more
    requires IsPlainWord(varName) && '$' !in varName
    ensures ParamName(f) == varName
  {
    var third := Word(Explode(' ', f), 2);
    assert third == "$" + varName;
    DollarRemoved(varName);
    TrimClean(varName);
  }

  /** Removing every '$' from `$name` gives the name, when it holds no other '$'. */
  lemma DollarRemoved(varName: string)
    requires '$' !in varName
    ensures RemoveAll("$" + varName, "$") == varName
  {
    RemoveAllLeading("$", varName);
    RemoveAllNoFirstChar(varName, "$");
  }

  /** The words of `param <type> $<name>` followed by a space and more text. */
  lemma ExplodeParamFragment(typeName: string, varName: string, rest: string)
    requires IsPlainWord(typeName) && IsPlainWord(varName)
    ensures Explode(' ', "param " + typeName + " $" + varName + " " + rest)
      == ["param", typeName, "$" + varName] + Explode(' ', rest)
  {
    assert ' ' !in "$" + varName by { assert IsTrimChar(' '); }
    assert ' ' !in typeName by { assert IsTrimChar(' '); }
    ExplodeThreeWords("param", typeName, "$" + varName, rest);
    assert "param " + typeName + " $" + varName + " " + rest == "param" + " " + typeName + " " + ("$" + varName) + " " + rest;
  }

  /** The words of `return <type>` followed by a space and more text. */
  lemma ExplodeReturnFragment(typeName: string, rest: string)
    requires IsPlainWord(typeName)
    ensures Explode(' ', "return " + typeName + " " + rest) == ["return", typeName] + Explode(' ', rest)
  {
    assert ' ' !in typeName by { assert IsTrimChar(' '); }
    ExplodeTwoWords("return", typeName, rest);
    assert "return " + typeName + " " + rest == "return" + " " + typeName + " " + rest;
  }

  /**
   * `param <type> $<name> ...` declares `<name>` with type `<type>`: the
   * type is the second space-separated word, the name the third with its
   * '$' removed.
   */
  lemma ParamFragmentShape(typeName: string, varName: string, rest: string)
    requires IsPlainWord(typeName) && IsPlainWord(varName) && '$' !in varName
    ensures Classify("param " + typeName + " $" + varName + " " + rest) == Param(varName, typeName)
  {
    var f := "param " + typeName + " $" + varName + " " + rest;
    ExplodeParamFragment(typeName, varName, rest);
    assert f[..5] == "param";
    ParamTagByPrefix(f);
    var more := Explode(' ', rest);
    assert Explode(' ', f) == [ "param", typeName] + (["$" + varName] + more);
    TypeFromWords(f, "param", typeName, ["$" + varName] + more);
    NameFromWords(f, "param", typeName, varName, more);
  }

  /** `return <type> ...` names `<type>`, the second space-separated word. */
  lemma ReturnFragmentShape(typeName: string, rest: string)
    requires IsPlainWord(typeName)
    ensures Classify("return " + typeName + " " + rest) == Return(typeName)
  {
    var f := "return " + typeName + " " + rest;
    ExplodeReturnFragment(typeName, rest);
    assert f[..6] == "return";
    ReturnTagByPrefix(f);
    TypeFromWords(f, "return", typeName, Explode(' ', rest));
  }

  // A comment made of the opening delimiter, a text without slash or star,
  // and the closing delimiter keeps the closing slash: removing every star
  // also takes the star of the closing delimiter, but not its slash.
  lemma StripKeepsClosingSlash(body: string)
    requires '/' !in body && '*' !in body
    ensures StripDelimiters("/**" + body + "*/") == body + "/"
  {
    assert "/**" + body + "*/" == "/**" + (body + "*/");
    RemoveAllLeading("/**", body + "*/");
    RemoveAllSkipsClean(body, "*/", "/**");
    assert RemoveAll("*/", "/**") == "*/";
    RemoveAllSkipsClean(body, "*/", "*");
    assert RemoveAll("*/", "*") == "/";
  }

  // ---------------------------------------------------------------------
  // Whole comments
  // ---------------------------------------------------------------------

  /** A word that can sit inside a one-line comment without being split or stripped. */
  predicate IsCommentWord(w: string) {
    IsPlainWord(w) && '@' !in w && '*' !in w && '/' !in w
  }

  /** A fragment too short for either tag is ignored. */
  lemma ShortFragmentIsOther(f: string)
    requires |f| < 5
    ensures Classify(f) == Other
  {
  }

  lemma AtLayout(t: string, v: string, r: string)
    ensures " @param " + t + " $" + v + " @return " + r + " /"
      == " " + ['@'] + (("param " + t + " $" + v + " ") + ['@'] + ("return " + r + " /"))
  {
  }

  /** The pieces of the one-line comment `@param <t> $<v> @return <r>`, after stripping. */
  lemma ExplodeParamThenReturn(t: string, v: string, r: string)
    requires IsCommentWord(t) && IsCommentWord(v) && IsCommentWord(r)
    ensures Explode('@', " @param " + t + " $" + v + " @return " + r + " /")
      == [" ", "param " + t + " $" + v + " ", "return " + r + " /"]
  {
    var p := "param " + t + " $" + v + " ";
    var q := "return " + r + " /";
    assert '@' !in p && '@' !in q;
    var x2 := p + ['@'] + q;
    var x1 := " " + ['@'] + x2;
    AtLayout(t, v, r);
    ExplodeNoSep('@', q);
    ExplodeStep('@', p, [], x2, q, [q]);
    ExplodeStep('@', " ", [p], x1, x2, [q]);
  }

  lemma CommentLayout(t: string, v: string, r: string)
    ensures "/** @param " + t + " $" + v + " @return " + r + " */"
      == "/**" + (" @param " + t + " $" + v + " @return " + r + " ") + "*/"
    ensures (" @param " + t + " $" + v + " @return " + r + " ") + "/"
      == " @param " + t + " $" + v + " @return " + r + " /"
  {
  }

  /** The fragments of the one-line comment `@param <t> $<v> @return <r>`. */
  lemma FragmentsParamThenReturn(t: string, v: string, r: string)
    requires IsCommentWord(t) && IsCommentWord(v) && IsCommentWord(r)
    ensures Fragments("/** @param " + t + " $" + v + " @return " + r + " */")
      == [" ", "param " + t + " $" + v + " ", "return " + r + " /"]
  {
    var body := " @param " + t + " $" + v + " @return " + r + " ";
    CommentLayout(t, v, r);
    assert '/' !in body && '*' !in body;
    StripKeepsClosingSlash(body);
    ExplodeParamThenReturn(t, v, r);
  }

  /** The registers after an ignored fragment, a `param` and a `return`. */
  lemma FoldOtherParamReturn(v: string, t: string, r: string)
    ensures ParamsOf([Other, Param(v, t), Return(r)]) == map[v := t]
    ensures ReturnOf([Other, Param(v, t), Return(r)]) == Some(r)
  {
    var tags := [Other, Param(v, t), Return(r)];
    assert tags[..2] == [Other, Param(v, t)];
    assert tags[..2][..1] == [Other];
    assert [Other][..0] == [];
    assert ParamsOf([Other]) == map[];
    assert ParamsOf(tags[..2]) == map[v := t];
  }

  /**
   * A one-line comment with one `@param` and one `@return` gives that
   * parameter type and that return type.
   */
  lemma ParamThenReturn(t: string, v: string, r: string)
    requires IsCommentWord(t) && IsCommentWord(v) && IsCommentWord(r) && '$' !in v
    ensures ParseComment(Some("/** @param " + t + " $" + v + " @return " + r + " */"))
      == ParsedComment(r, map[v := t])
  {
    var c := "/** @param " + t + " $" + v + " @return " + r + " */";
    var p := "param " + t + " $" + v + " ";
    var q := "return " + r + " /";
    var frags := [" ", p, q];
    FragmentsParamThenReturn(t, v, r);
    ShortFragmentIsOther(" ");
    assert p == "param " + t + " $" + v + " " + "";
    ParamFragmentShape(t, v, "");
    ReturnSpaceSlash(r);
    ReturnFragmentShape(r, "/");
    var tags := [Other, Param(v, t), Return(r)];
    ClassifyAllThree(" ", p, q);
    FoldOtherParamReturn(v, t, r);
    ParseFromFragments(c, frags, tags);
  }

  lemma ReturnSpaceSlash(r: string)
    ensures "return " + r + " /" == "return " + r + " " + "/"
  {
  }

  /** Classifying three fragments one by one. */
  lemma ClassifyAllThree(a: string, b: string, c: string)
    ensures ClassifyAll([a, b, c]) == [Classify(a), Classify(b), Classify(c)]
  {
    var frags := [a, b, c];
    var x := ClassifyAll(frags);
    ThreeTags(x);
    assert frags[0] == a && frags[1] == b && frags[2] == c;
  }

  lemma ThreeTags(x: seq<Tag>)
    requires |x| == 3
    ensures x == [x[0], x[1], x[2]]
  {
  }

  /** A comment whose fragments classify to known tags parses to those tags' registers. */
  lemma ParseFromFragments(c: string, frags: seq<string>, tags: seq<Tag>)
    requires Fragments(c) == frags && ClassifyAll(frags) == tags
    ensures ParseComment(Some(c)) == ParsedComment(ReturnOf(tags).GetOr(""), ParamsOf(tags))
  {
  }

  lemma ReturnCloseLayout(r: string)
    ensures "/** @return " + r + "*/" == "/**" + (" @return " + r) + "*/"
    ensures " @return " + r + "/" == " " + ['@'] + ("return " + r + "/")
  {
  }

  /** The fragments of the one-line comment `@return <r>` closed without a space. */
  lemma FragmentsReturnBeforeClose(r: string)
    requires IsCommentWord(r)
    ensures Fragments("/** @return " + r + "*/") == [" ", "return " + r + "/"]
  {
    var body := " @return " + r;
    var q := "return " + r + "/";
    ReturnCloseLayout(r);
    assert '/' !in body && '*' !in body;
    StripKeepsClosingSlash(body);
    assert '@' !in q;
    ExplodeNoSep('@', q);
    ExplodeStep('@', " ", [], body + "/", q, [q]);
  }

  /** `return <r>/` with no further space names `<r>/`. */
  lemma ReturnWithSlash(r: string)
    requires IsCommentWord(r)
    ensures Classify("return " + r + "/") == Return(r + "/")
  {
    var q := "return " + r + "/";
    assert q == "return" + [' '] + (r + "/");
    assert ' ' !in r + "/" by { assert IsTrimChar(' '); }
    ExplodeNoSep(' ', r + "/");
    ExplodeFirstPiece(' ', "return", r + "/");
    assert q[..6] == "return";
    ReturnTagByPrefix(q);
    assert IsPlainWord(r + "/") by {
      assert forall c :: c in r + "/" ==> c in r || c == '/';
    }
    TypeFromWords(q, "return", r + "/", []);
  }

  /**
   * With no space before the closing delimiter, the return type keeps the
   * slash that removing the stars leaves behind.
   */
  lemma ReturnBeforeCloseKeepsSlash(r: string)
    requires IsCommentWord(r)
    ensures ParseComment(Some("/** @return " + r + "*/")).returnType == r + "/"
  {
    FragmentsReturnBeforeClose(r);
    ShortFragmentIsOther(" ");
    ReturnWithSlash(r);
    var c := "/** @return " + r + "*/";
    var frags := [" ", "return " + r + "/"];
    var tags := [Other, Return(r + "/")];
    ClassifyAllTwo(" ", "return " + r + "/");
    assert tags[..1] == [Other];
    ParseFromFragments(c, frags, tags);
  }

  /** Classifying two fragments one by one. */
  lemma ClassifyAllTwo(a: string, b: string)
    ensures ClassifyAll([a, b]) == [Classify(a), Classify(b)]
  {
    var frags := [a, b];
    var x := ClassifyAll(frags);
    TwoTags(x);
    assert frags[0] == a && frags[1] == b;
  }

  lemma TwoTags(x: seq<Tag>)
    requires |x| == 2
    ensures x == [x[0], x[1]]
  {
  }

  /** The words of `param` followed by two spaces, a word and more text. */
  lemma ExplodeDoubledSpace(t: string, rest: string)
    requires IsPlainWord(t)
    ensures Explode(' ', "param  " + t + " " + rest) == ["param", "", t] + Explode(' ', rest)
  {
    assert ' ' !in t by { assert IsTrimChar(' '); }
    ExplodeThreeWords("param", "", t, rest);
    assert "param  " + t + " " + rest == "param" + " " + "" + " " + t + " " + rest;
  }

  /**
   * The words are split on single spaces, so a doubled space shifts them:
   * the type reads as empty and the type's word becomes the name.
   */
  lemma DoubledSpaceShiftsWords(t: string, rest: string)
    requires IsPlainWord(t) && '$' !in t
    ensures Classify("param  " + t + " " + rest) == Param(t, "")
  {
    var f := "param  " + t + " " + rest;
    ExplodeDoubledSpace(t, rest);
    assert f[..5] == "param";
    ParamTagByPrefix(f);
    var more := Explode(' ', rest);
    assert Explode(' ', f) == ["param", ""] + ([t] + more);
    TypeFromWords(f, "param", "", [t] + more);
    NameFromBareWord(f, "param", "", t, more);
  }

  lemma LineBreakLayout(t: string, v: string, rest: string)
    ensures "param " + t + " $" + v + "\n " + rest == "param" + " " + t + " " + ("$" + (v + "\n")) + " " + rest
  {
  }

  /** The words of `param <type> $<name>`, a line break and the next line. */
  lemma LineBreakWords(t: string, v: string, rest: string)
    requires IsPlainWord(t) && IsPlainWord(v)
    ensures Explode(' ', "param " + t + " $" + v + "\n " + rest) == ["param", t, "$" + (v + "\n")] + Explode(' ', rest)
  {
    var third := "$" + (v + "\n");
    assert ' ' !in t && ' ' !in v by { assert IsTrimChar(' '); }
    assert ' ' !in third by { assert third == ['$'] + v + ['\n']; }
    LineBreakLayout(t, v, rest);
    ExplodeThreeWords("param", t, third, rest);
  }

  /** A third word `$<name>` followed by a line break gives the name: `trim` drops the break. */
  lemma NameBeforeBreak(f: string, first: string, second: string, v: string, more: seq<string>)
    requires Explode(' ', f) == [first, second, "$" + (v + "\n")] + more
    requires IsPlainWord(v) && '$' !in v && v != []
    ensures ParamName(f) == v
  {
    assert Word(Explode(' ', f), 2) == "$" + (v + "\n");
    RemoveAllLeading("$", v + "\n");
    RemoveAllNoFirstChar(v + "\n", "$");
    assert v + "\n" == [] + v + "\n";
    TrimSurrounded([], v, "\n");
  }

  /**
   * In a comment spread over lines, the name is followed by the line break
   * and the next line's indentation: the third word is `$<name>` plus the
   * line break, and `trim` removes the line break again.
   */
  lemma LineBreakAfterName(t: string, v: string, rest: string)
    requires IsPlainWord(t) && IsPlainWord(v) && '$' !in v && v != []
    ensures Classify("param " + t + " $" + v + "\n " + rest) == Param(v, t)
  {
    var f := "param " + t + " $" + v + "\n " + rest;
    var more := Explode(' ', rest);
    LineBreakWords(t, v, rest);
    assert f[..5] == "param";
    ParamTagByPrefix(f);
    assert Explode(' ', f) == ["param", t] + (["$" + (v + "\n")] + more);
    TypeFromWords(f, "param", t, ["$" + (v + "\n")] + more);
    NameBeforeBreak(f, "param", t, v, more);
  }

  /** A third word without '$' is the name as it stands. */
  lemma NameFromBareWord(f: string, first: string, second: string, w: string, more: seq<string>)
    requires Explode(' ', f) == [first, second, w] + more
    requires IsPlainWord(w) && '$' !in w
    ensures ParamName(f) == w
  {
    var third := Word(Explode(' ', f), 2);
    assert third == w;
    RemoveAllNoFirstChar(w, "$");
    TrimClean(w);
  }
}

/** Concrete comments read by the parser. */
module DocCommentExamples {
  import opened Optional
  import opened PhpStrings
  import opened DocComment

  lemma ExampleWords()
    ensures IsCommentWord("string") && IsCommentWord("x") && IsCommentWord("bool") && '$' !in "x"
  {
    assert IsCommentWord("string");
    assert IsCommentWord("x");
    assert IsCommentWord("bool");
  }

  /** The tag tests ignore case: `PARAM` and `Return` pass them. */
  lemma UpperCaseTags()
    ensures IsParamTag("PARAM int $y") && IsReturnTag("Return bool") && !IsParamTag("Return bool")
  {
    assert "PARAM int $y"[..5] == "PARAM" && Lower("PARAM") == "param";
    assert "Return bool"[..6] == "Return" && Lower("Return") == "return";
    assert "Return bool"[..5] == "Retur" && Lower("Retur") != "param" by {
      assert Lower("Retur")[0] == 'r';
    }
  }

  /** `param string $x` at the end of a comment line names `x` of type `string`. */
  lemma MultiLineExample()
    ensures ParamName("param string $x\n  ") == "x" && TagType("param string $x\n  ") == "string"
  {
    assert IsPlainWord("string") && IsPlainWord("x");
    LineBreakAfterName("string", "x", " ");
    MultiLineText();
  }

  lemma MultiLineText()
    ensures "param " + "string" + " $" + "x" + "\n " + " " == "param string $x\n  "
  {
  }

  lemma ExampleText()
    ensures "/** @param " + "string" + " $" + "x" + " @return " + "bool" + " */"
      == "/** @param string $x @return bool */"
  {
  }

  /** `@param string $x @return bool` gives `['return' => 'bool', 'param' => ['x' => 'string']]`. */
  lemma ParseExample()
    ensures ParseComment(Some("/** @param string $x @return bool */"))
      == ParsedComment("bool", map["x" := "string"])
  {
    ExampleWords();
    ParamThenReturn("string", "x", "bool");
    ExampleText();
  }
}
