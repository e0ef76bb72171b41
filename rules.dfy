/** The ordered substitution table of `replace_json_content.py` and the pass
    that applies it to one file's text.

    The source keeps the table in a dict literal; Python 3.7 and later iterate
    a dict in insertion order, so the table is the sequence of its
    (pattern, replacement) pairs in the order they are written.
 */
module Rules {
  import opened StrReplace

  /** One substitution: replace every `pattern` by `replacement`. */
  datatype Rule = Rule(pattern: string, replacement: string)

  type Table = seq<Rule>

  /** `ANTI_HARMONY_DICT`, in the dict literal's order. */
  const AntiHarmony: Table := [
    Rule("匕见", "荆轲"),
    Rule("虎狼", "吕布"),
    Rule("周照", "武则天"),
    Rule("莲偶", "哪吒"),
    Rule("重瞳", "项羽"),
    Rule("忠贞", "秦良玉"),
    Rule("祖政", "始皇帝"),
    Rule("雏罂", "虞美人"),
    Rule("丹驹", "赤兔马"),
    Rule("晋帝", "司马懿"),
    Rule("琰女", "杨贵妃"),
    Rule("瞑生院", "杀生院"),
    Rule("歌果", "美杜莎"),
    Rule("爱迪·萨奇", "爱德华·蒂奇"),
    Rule("雾都弃子", "开膛手杰克"),
    Rule("西行者", "玄奘三藏"),
    Rule("方巿", "徐福"),
    Rule("吾绰", "呼延灼"),
    Rule("暗匿者", "暗杀者"),
    Rule("【{0}】", "[{0}]")
  ]

  /** The text after every rule of `table` has run, first to last, each on the
      output of the one before. */
  function ApplyTable(s: string, table: Table): string
    decreases |table|
  {
    if table == [] then s
    else ApplyTable(ReplaceAll(s, table[0].pattern, table[0].replacement), table[1..])
  }

  /** The first rule runs first, and the rest run on its output. */
  lemma ApplyTableCons(s: string, rule: Rule, rest: Table)
    ensures ApplyTable(s, [rule] + rest)
         == ApplyTable(ReplaceAll(s, rule.pattern, rule.replacement), rest)
  {
  }

  /** Running a table in two parts is running the whole table: the pass is a
      left-to-right fold over the rules. */
  lemma {:induction false} ApplyTableAppend(s: string, t1: Table, t2: Table)
    ensures ApplyTable(s, t1 + t2) == ApplyTable(ApplyTable(s, t1), t2)
    decreases |t1|
  {
    if t1 == [] {
      assert t1 + t2 == t2;
    } else {
      assert (t1 + t2)[1..] == t1[1..] + t2;
      ApplyTableAppend(ReplaceAll(s, t1[0].pattern, t1[0].replacement), t1[1..], t2);
    }
  }

  /** The last rule sees the output of all the rules before it. */
  lemma ApplyTableSnoc(s: string, table: Table, rule: Rule)
    ensures ApplyTable(s, table + [rule])
         == ReplaceAll(ApplyTable(s, table), rule.pattern, rule.replacement)
  {
    ApplyTableAppend(s, table, [rule]);
    assert [rule][1..] == [];
  }

  /** A text that contains none of the table's patterns passes unchanged. */
  lemma {:induction false} ApplyTableNoMatch(s: string, table: Table)
    requires forall i :: 0 <= i < |table| ==> !Contains(s, table[i].pattern)
    ensures ApplyTable(s, table) == s
    decreases |table|
  {
    if table != [] {
      AbsentIsNoOp(s, table[0].pattern, table[0].replacement);
      ApplyTableNoMatch(s, table[1..]);
    }
  }

  /** With `{"A": "B", "B": "C"}` the text `"A"` becomes `"C"`: the `"B"` the
      first rule writes is replaced by the second. */
  lemma ChainedRulesExample()
    ensures ApplyTable("A", [Rule("A", "B"), Rule("B", "C")]) == "C"
  {
    ReplacedTextNotRescanned("A", "B", "");
    ReplacedTextNotRescanned("B", "C", "");
  }

  /** The order of the rules matters: with the two rules swapped, `"A"`
      becomes `"B"`. */
  lemma RuleOrderMatters()
    ensures ApplyTable("A", [Rule("B", "C"), Rule("A", "B")]) == "B"
  {
    assert !Contains("A", "B") by {
      assert !OccursAt("A", "B", 0);
    }
    AbsentIsNoOp("A", "B", "C");
    ReplacedTextNotRescanned("A", "B", "");
  }

  /** Every pattern of the table is non-empty and no two are equal, as the
      keys of a dict. */
  lemma AntiHarmonyKeysDistinct()
    ensures |AntiHarmony| == 20
    ensures forall i :: 0 <= i < |AntiHarmony| ==> AntiHarmony[i].pattern != []
    ensures forall i, j :: 0 <= i < j < |AntiHarmony| ==> AntiHarmony[i].pattern != AntiHarmony[j].pattern
  {
  }

  /** The substitution loop of `scan_and_replace`: each rule whose pattern
      occurs in the current text replaces it, in table order. */
  method ApplyRules(content: string, table: Table) returns (newContent: string)
    ensures newContent == ApplyTable(content, table)
  {
    newContent := content;
    var i := 0;
    while i < |table|
      invariant 0 <= i <= |table|
      invariant ApplyTable(newContent, table[i..]) == ApplyTable(content, table)
    {
      var rule := table[i];
      assert table[i..][1..] == table[i + 1..];
      if Contains(newContent, rule.pattern) {
        newContent := ReplaceAll(newContent, rule.pattern, rule.replacement);
      } else {
        AbsentIsNoOp(newContent, rule.pattern, rule.replacement);
      }
      i := i + 1;
    }
  }
}
