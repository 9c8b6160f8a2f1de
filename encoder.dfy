/** `dataframe_to_numpy`: every categorical column is label-encoded on its
    own (codes by sorted order of the distinct values) and one-hot encoded
    into a block as wide as its number of distinct values; the blocks come
    first, in declared order, followed by one normalised column per ordinal
    column, in declared order. */
module FeatureEncoder {
  import opened Normalizer
  import StringOrder

  /** A cell of the cleaned data frame. */
  datatype Cell = Text(s: string) | Number(x: real)

  /** A row maps column names to cells; a table is its rows in order. */
  type Row = map<string, Cell>
  type Table = seq<Row>

  /** A row-major numeric matrix. */
  type Matrix = seq<seq<real>>

  predicate TextColumn(t: Table, c: string)
  {
    forall i :: 0 <= i < |t| ==> c in t[i] && t[i][c].Text?
  }

  predicate NumberColumn(t: Table, c: string)
  {
    forall i :: 0 <= i < |t| ==> c in t[i] && t[i][c].Number?
  }

  function Texts(t: Table, c: string): (r: seq<string>)
    requires TextColumn(t, c)
    ensures |r| == |t| && forall i :: 0 <= i < |t| ==> r[i] == t[i][c].s
  {
    seq(|t|, i requires 0 <= i < |t| => t[i][c].s)
  }

  function Numbers(t: Table, c: string): (r: seq<real>)
    requires NumberColumn(t, c)
    ensures |r| == |t| && forall i :: 0 <= i < |t| ==> r[i] == t[i][c].x
  {
    seq(|t|, i requires 0 <= i < |t| => t[i][c].x)
  }

  /** The distinct values of a categorical column (the encoder's classes). */
  function Categories(t: Table, c: string): set<string>
    requires TextColumn(t, c)
  {
    set i | 0 <= i < |t| :: t[i][c].s
  }

  /** The code the label encoder gives `v`: its position among the sorted
      categories, that is, how many categories sort before it. */
  function Code(v: string, categories: set<string>): nat
  {
    |set w | w in categories && StringOrder.Less(w, v)|
  }

  /** `LabelEncoder.fit_transform` on one column. */
  function LabelEncode(t: Table, c: string): (codes: seq<nat>)
    requires TextColumn(t, c)
    ensures |codes| == |t|
    ensures forall i :: 0 <= i < |t| ==> codes[i] < |Categories(t, c)|
  {
    CodesBelowCount(t, c);
    seq(|t|, i requires 0 <= i < |t| => Code(t[i][c].s, Categories(t, c)))
  }

  /** The number of distinct values of each categorical column, as `nunique`
      computes them for the embedding model. */
  function VocabularySizes(t: Table, cats: seq<string>): (sizes: seq<nat>)
    requires forall j :: 0 <= j < |cats| ==> TextColumn(t, cats[j])
    ensures |sizes| == |cats|
    ensures forall j :: 0 <= j < |cats| ==> sizes[j] == |Categories(t, cats[j])|
  {
    seq(|cats|, j requires 0 <= j < |cats| => |Categories(t, cats[j])|)
  }

  function Sum(s: seq<nat>): nat
  {
    if s == [] then 0 else Sum(s[..|s| - 1]) + s[|s| - 1]
  }

  /** The blocks laid end to end, in order. */
  function Concat(blocks: seq<seq<real>>): seq<real>
  {
    if blocks == [] then [] else Concat(blocks[..|blocks| - 1]) + blocks[|blocks| - 1]
  }

  /** A block of `width` indicators with a single 1 at position `hot`. */
  function OneHot(width: nat, hot: nat): seq<real>
  {
    seq(width, k => if k == hot then 1.0 else 0.0)
  }

  /** The indicator blocks of row `i`, one per categorical column in the
      declared order, each as wide as that column has distinct values. */
  function Blocks(t: Table, cats: seq<string>, i: nat): (b: seq<seq<real>>)
    requires forall j :: 0 <= j < |cats| ==> TextColumn(t, cats[j])
    requires i < |t|
    ensures |b| == |cats|
    ensures forall j :: 0 <= j < |cats| ==> b[j] == OneHot(|Categories(t, cats[j])|, LabelEncode(t, cats[j])[i])
  {
    seq(|cats|, j requires 0 <= j < |cats| => OneHot(|Categories(t, cats[j])|, LabelEncode(t, cats[j])[i]))
  }

  /** The one-hot part of feature row `i`: its blocks laid end to end. */
  function CategoricalPart(t: Table, cats: seq<string>, i: nat): (r: seq<real>)
    requires forall j :: 0 <= j < |cats| ==> TextColumn(t, cats[j])
    requires i < |t|
    ensures |r| == Sum(VocabularySizes(t, cats))
  {
    var blocks, sizes := Blocks(t, cats, i), VocabularySizes(t, cats);
    ConcatLength(blocks, sizes, |cats|);
    assert blocks[..|cats|] == blocks && sizes[..|cats|] == sizes;
    Concat(blocks)
  }

  /** `OneHotEncoder.fit_transform` of the label codes: one row per table row. */
  function OneHotEncode(t: Table, cats: seq<string>): (m: Matrix)
    requires forall j :: 0 <= j < |cats| ==> TextColumn(t, cats[j])
    ensures |m| == |t|
    ensures forall i :: 0 <= i < |t| ==> m[i] == CategoricalPart(t, cats, i)
  {
    seq(|t|, i requires 0 <= i < |t| => CategoricalPart(t, cats, i))
  }

  /** Ordinal column `k`, normalised onto [0, 1]. */
  function OrdinalColumn(t: Table, ords: seq<string>, k: nat): (column: seq<real>)
    requires k < |ords| && NumberColumn(t, ords[k]) && Normalizable(Numbers(t, ords[k]))
    ensures |column| == |t|
  {
    Normalized(Numbers(t, ords[k]), false)
  }

  /** The ordinal part of feature row `i`: entry `i` of each normalised
      ordinal column, in the declared order. */
  function OrdinalPart(t: Table, ords: seq<string>, i: nat): (r: seq<real>)
    requires forall k :: 0 <= k < |ords| ==> NumberColumn(t, ords[k]) && Normalizable(Numbers(t, ords[k]))
    requires i < |t|
    ensures |r| == |ords|
    ensures forall k :: 0 <= k < |ords| ==> r[k] == OrdinalColumn(t, ords, k)[i]
  {
    seq(|ords|, k requires 0 <= k < |ords| => OrdinalColumn(t, ords, k)[i])
  }

  /** What the caller must supply: a non-empty table whose categorical
      columns hold text and whose ordinal columns hold numbers that are not
      all equal. */
  predicate Encodable(t: Table, cats: seq<string>, ords: seq<string>)
  {
    |t| > 0 &&
    (forall j :: 0 <= j < |cats| ==> TextColumn(t, cats[j])) &&
    (forall k :: 0 <= k < |ords| ==> NumberColumn(t, ords[k]) && Normalizable(Numbers(t, ords[k])))
  }

  /** Row `i` of the feature matrix. */
  function FeatureRow(t: Table, cats: seq<string>, ords: seq<string>, i: nat): (r: seq<real>)
    requires Encodable(t, cats, ords) && i < |t|
    ensures |r| == Sum(VocabularySizes(t, cats)) + |ords|
  {
    CategoricalPart(t, cats, i) + OrdinalPart(t, ords, i)
  }

  /** The feature matrix `dataframe_to_numpy` returns, row by row. */
  function FeatureMatrix(t: Table, cats: seq<string>, ords: seq<string>): (x: Matrix)
    requires Encodable(t, cats, ords)
    ensures |x| == |t|
    ensures forall i :: 0 <= i < |t| ==> x[i] == FeatureRow(t, cats, ords, i)
  {
    seq(|t|, i requires 0 <= i < |t| => FeatureRow(t, cats, ords, i))
  }

  /** `np.transpose` of a matrix whose rows all have `width` entries. */
  function Transpose(m: Matrix, width: nat): (r: Matrix)
    requires forall i :: 0 <= i < |m| ==> |m[i]| == width
    ensures |r| == width
    ensures forall k :: 0 <= k < width ==> |r[k]| == |m|
    ensures forall k, i :: 0 <= k < width && 0 <= i < |m| ==> r[k][i] == m[i][k]
  {
    seq(width, k requires 0 <= k < width => seq(|m|, i requires 0 <= i < |m| => m[i][k]))
  }

  /** Transposing twice gives the matrix back. */
  lemma TransposeTwice(m: Matrix, width: nat)
    requires forall i :: 0 <= i < |m| ==> |m[i]| == width
    ensures Transpose(Transpose(m, width), |m|) == m
  {
    var back := Transpose(Transpose(m, width), |m|);
    forall i | 0 <= i < |m|
      ensures back[i] == m[i]
    {
      assert |back[i]| == width;
    }
  }

  /** The stacked columns after `k` ordinal columns have been added: the
      transposed one-hot matrix with those normalised columns below it. */
  function Stacked(t: Table, cats: seq<string>, ords: seq<string>, k: nat): (m: Matrix)
    requires Encodable(t, cats, ords) && k <= |ords|
    ensures |m| == Sum(VocabularySizes(t, cats)) + k
    ensures forall q :: 0 <= q < |m| ==> |m[q]| == |t|
  {
    Transpose(OneHotEncode(t, cats), Sum(VocabularySizes(t, cats))) +
    seq(k, q requires 0 <= q < k => Normalized(Numbers(t, ords[q]), false))
  }

  /** `dataframe_to_numpy`: the one-hot matrix is transposed, each
      normalised ordinal column is stacked below it in turn, and the result
      is transposed back. */
  method DataframeToNumpy(t: Table, cats: seq<string>, ords: seq<string>) returns (x: Matrix)
    requires Encodable(t, cats, ords)
    ensures x == FeatureMatrix(t, cats, ords)
  {
    var width := Sum(VocabularySizes(t, cats));
    var stacked := Transpose(OneHotEncode(t, cats), width);
    for k := 0 to |ords|
      invariant stacked == Stacked(t, cats, ords, k)
    {
      var column := NormalizeColumn(Numbers(t, ords[k]), false);
      stacked := stacked + [column[..]];
      assert stacked == Stacked(t, cats, ords, k + 1);
    }
    x := Transpose(stacked, |t|);
    forall i | 0 <= i < |t|
      ensures x[i] == FeatureRow(t, cats, ords, i)
    {
      TransposeBack(t, cats, ords, i);
    }
    assert x == FeatureMatrix(t, cats, ords);
  }

  /** Row `i` of the transposed stack is feature row `i`. */
  lemma TransposeBack(t: Table, cats: seq<string>, ords: seq<string>, i: nat)
    requires Encodable(t, cats, ords) && i < |t|
    ensures Transpose(Stacked(t, cats, ords, |ords|), |t|)[i] == FeatureRow(t, cats, ords, i)
  {
    var width := Sum(VocabularySizes(t, cats));
    var m := Stacked(t, cats, ords, |ords|);
    var enc := OneHotEncode(t, cats);
    var row := FeatureRow(t, cats, ords, i);
    var xi := Transpose(m, |t|)[i];
    assert |xi| == |row|;
    forall q | 0 <= q < |row|
      ensures xi[q] == row[q]
    {
      assert xi[q] == m[q][i];
      if q < width {
        assert m[q] == Transpose(enc, width)[q];
        assert row[q] == CategoricalPart(t, cats, i)[q];
      } else {
        assert m[q] == Normalized(Numbers(t, ords[q - width]), false);
        assert row[q] == OrdinalPart(t, ords, i)[q - width];
      }
    }
  }

  /** Every code of a column is below its number of categories. */
  lemma CodesBelowCount(t: Table, c: string)
    requires TextColumn(t, c)
    ensures forall i :: 0 <= i < |t| ==> Code(t[i][c].s, Categories(t, c)) < |Categories(t, c)|
  {
    forall i | 0 <= i < |t|
      ensures Code(t[i][c].s, Categories(t, c)) < |Categories(t, c)|
    {
      CodeBelowCount(t[i][c].s, Categories(t, c));
    }
  }

  lemma {:induction false} SubsetCard<T>(a: set<T>, b: set<T>)
    requires a <= b
    ensures |a| <= |b|
    decreases |b|
  {
    if a != {} {
      var x :| x in a;
      SubsetCard(a - {x}, b - {x});
    }
  }

  lemma ProperSubsetCard<T>(a: set<T>, b: set<T>)
    requires a < b
    ensures |a| < |b|
  {
    assert b - a != {};
    var x :| x in b - a;
    SubsetCard(a, b - {x});
  }

  /** A category's code is below the number of categories. */
  lemma CodeBelowCount(v: string, categories: set<string>)
    requires v in categories
    ensures Code(v, categories) < |categories|
  {
    var below := set w | w in categories && StringOrder.Less(w, v);
    StringOrder.LessIrreflexive(v);
    assert below < categories;
    ProperSubsetCard(below, categories);
  }

  /** Codes follow the sorted order of the categories: a category that
      sorts first gets a smaller code. */
  lemma CodeMonotone(a: string, b: string, categories: set<string>)
    requires a in categories && StringOrder.Less(a, b)
    ensures Code(a, categories) < Code(b, categories)
  {
    var belowA := set w | w in categories && StringOrder.Less(w, a);
    var belowB := set w | w in categories && StringOrder.Less(w, b);
    forall w | w in belowA
      ensures w in belowB
    {
      StringOrder.LessTransitive(w, a, b);
    }
    StringOrder.LessIrreflexive(a);
    assert a in belowB && a !in belowA;
    assert belowA < belowB;
    ProperSubsetCard(belowA, belowB);
  }

  /** The codes of two rows compare exactly as their values do: equal codes
      for equal values and a smaller code for the value that sorts first. */
  lemma LabelEncodeOrder(t: Table, c: string, i: nat, j: nat)
    requires TextColumn(t, c) && i < |t| && j < |t|
    ensures LabelEncode(t, c)[i] == LabelEncode(t, c)[j] <==> t[i][c].s == t[j][c].s
    ensures LabelEncode(t, c)[i] < LabelEncode(t, c)[j] <==> StringOrder.Less(t[i][c].s, t[j][c].s)
  {
    var cats := Categories(t, c);
    var a, b := t[i][c].s, t[j][c].s;
    assert a in cats && b in cats;
    if a != b {
      StringOrder.LessTotal(a, b);
      if StringOrder.Less(a, b) {
        CodeMonotone(a, b, cats);
        StringOrder.LessAsymmetric(a, b);
      } else {
        CodeMonotone(b, a, cats);
      }
    } else {
      StringOrder.LessIrreflexive(a);
    }
  }

  /** The label codes of a column are exactly 0, 1, ..., n - 1 for its n
      distinct values. So the classes the one-hot encoder fits on the codes
      of a column are these n codes, sorted. That is why a one-hot block is
      `nunique` wide and its 1 sits at the code itself. */
  lemma DistinctCodes(t: Table, c: string)
    requires TextColumn(t, c)
    ensures (set i | 0 <= i < |t| :: LabelEncode(t, c)[i]) == Ranks(|Categories(t, c)|)
  {
    var cats := Categories(t, c);
    var codes := LabelEncode(t, c);
    var used := set i | 0 <= i < |t| :: codes[i];
    var ranks := Ranks(|cats|);
    var image := set v | v in cats :: Code(v, cats);
    forall k | k in image
      ensures k in used
    {
      var v :| v in cats && Code(v, cats) == k;
      var i :| 0 <= i < |t| && t[i][c].s == v;
      assert codes[i] == k;
    }
    assert used == image;
    CodeImageCard(cats, cats);
    if used != ranks {
      ProperSubsetCard(used, ranks);
    }
  }

  /** Where the one-hot encoder puts the 1 for value `x`: its position
      among the sorted classes it was fitted on. */
  function ClassIndex(x: nat, classes: set<nat>): nat
  {
    |set k | k in classes && k < x|
  }

  /** Fitted on the label codes of a column, the one-hot encoder has as
      many classes as the column has distinct values, and the position of
      each row's code among them is the code itself: `OneHot` of the
      category count at the code is what `ohe.fit_transform` writes. */
  lemma OneHotFitsCodes(t: Table, c: string, i: nat)
    requires TextColumn(t, c) && i < |t|
    ensures |set r | 0 <= r < |t| :: LabelEncode(t, c)[r]| == |Categories(t, c)|
    ensures ClassIndex(LabelEncode(t, c)[i], set r | 0 <= r < |t| :: LabelEncode(t, c)[r]) == LabelEncode(t, c)[i]
  {
    DistinctCodes(t, c);
    RanksBelow(|Categories(t, c)|, LabelEncode(t, c)[i]);
  }

  /** Among the codes 0, ..., n - 1, exactly `x` are below `x`. */
  lemma RanksBelow(n: nat, x: nat)
    requires x <= n
    ensures ClassIndex(x, Ranks(n)) == x
  {
    assert (set k | k in Ranks(n) && k < x) == Ranks(x);
  }

  /** Distinct categories get distinct codes, so the codes of a set of
      categories are as many as the categories. */
  lemma {:induction false} CodeImageCard(a: set<string>, categories: set<string>)
    requires a <= categories
    ensures |set v | v in a :: Code(v, categories)| == |a|
    decreases |a|
  {
    var image := set v | v in a :: Code(v, categories);
    if a == {} {
      assert image == {};
    } else {
      var x :| x in a;
      var rest := a - {x};
      var restImage := set v | v in rest :: Code(v, categories);
      CodeImageCard(rest, categories);
      forall v | v in rest
        ensures Code(v, categories) != Code(x, categories)
      {
        StringOrder.LessTotal(v, x);
        if StringOrder.Less(v, x) {
          CodeMonotone(v, x, categories);
        } else {
          CodeMonotone(x, v, categories);
        }
      }
      assert image == restImage + {Code(x, categories)};
    }
  }

  /** The codes 0, 1, ..., n - 1. */
  function Ranks(n: nat): (r: set<nat>)
    ensures forall k: nat :: k in r <==> k < n
    ensures |r| == n
  {
    if n == 0 then {} else Ranks(n - 1) + {n - 1}
  }

  /** Laid end to end, the first `j` blocks of the given widths fill the
      sum of the first `j` widths. */
  lemma {:induction false} ConcatLength(blocks: seq<seq<real>>, widths: seq<nat>, j: nat)
    requires |blocks| == |widths| && j <= |blocks|
    requires forall q :: 0 <= q < |blocks| ==> |blocks[q]| == widths[q]
    ensures |Concat(blocks[..j])| == Sum(widths[..j])
  {
    if j > 0 {
      ConcatLength(blocks, widths, j - 1);
      assert blocks[..j][..j - 1] == blocks[..j - 1];
      assert widths[..j][..j - 1] == widths[..j - 1];
    }
  }

  /** The blocks up to `j` lay out a prefix of all the blocks. */
  lemma {:induction false} ConcatPrefix(blocks: seq<seq<real>>, j: nat)
    requires j <= |blocks|
    ensures |Concat(blocks[..j])| <= |Concat(blocks)|
    ensures Concat(blocks[..j]) == Concat(blocks)[..|Concat(blocks[..j])|]
    decreases |blocks|
  {
    if j == |blocks| {
      assert blocks[..j] == blocks;
    } else {
      var init := blocks[..|blocks| - 1];
      assert init[..j] == blocks[..j];
      ConcatPrefix(init, j);
    }
  }

  /** Block `j` sits right after the blocks before it. */
  lemma ConcatBlock(blocks: seq<seq<real>>, j: nat)
    requires j < |blocks|
    ensures |Concat(blocks[..j])| + |blocks[j]| <= |Concat(blocks)|
    ensures Concat(blocks)[|Concat(blocks[..j])|..|Concat(blocks[..j])| + |blocks[j]|] == blocks[j]
  {
    var upTo := blocks[..j + 1];
    assert upTo[..j] == blocks[..j];
    assert Concat(upTo) == Concat(blocks[..j]) + blocks[j];
    ConcatPrefix(blocks, j + 1);
  }

  /** `row` holds, from `offset` on, a block of `width` indicators whose
      single 1 is at `hot`. */
  predicate HoldsBlock(row: seq<real>, offset: nat, width: nat, hot: nat)
  {
    hot < width && offset + width <= |row| && row[offset..offset + width] == OneHot(width, hot)
  }

  /** The label codes of row `i`, one per categorical column. */
  function RowCodes(t: Table, cats: seq<string>, i: nat): (codes: seq<nat>)
    requires forall j :: 0 <= j < |cats| ==> TextColumn(t, cats[j])
    requires i < |t|
    ensures |codes| == |cats|
  {
    seq(|cats|, j requires 0 <= j < |cats| => LabelEncode(t, cats[j])[i])
  }

  /** Block `j` of the one-hot part starts after the blocks of the earlier
      columns, is as wide as column `j` has distinct values, and is the
      indicator of the code of row `i`'s value. */
  lemma CategoricalBlock(t: Table, cats: seq<string>, i: nat, j: nat)
    requires forall j' :: 0 <= j' < |cats| ==> TextColumn(t, cats[j'])
    requires i < |t| && j < |cats|
    ensures HoldsBlock(CategoricalPart(t, cats, i), Sum(VocabularySizes(t, cats)[..j]), VocabularySizes(t, cats)[j], RowCodes(t, cats, i)[j])
  {
    var sizes, codes := VocabularySizes(t, cats), RowCodes(t, cats, i);
    var blocks := Blocks(t, cats, i);
    assert CategoricalPart(t, cats, i) == Concat(blocks);
    assert forall q :: 0 <= q < |cats| ==> codes[q] < sizes[q];
    ConcatHoldsBlock(blocks, sizes, codes, j);
  }

  /** Indicator blocks laid end to end: block `j` starts after the widths of
      the blocks before it. */
  lemma ConcatHoldsBlock(blocks: seq<seq<real>>, widths: seq<nat>, hots: seq<nat>, j: nat)
    requires |blocks| == |widths| == |hots| && j < |blocks|
    requires forall q :: 0 <= q < |blocks| ==> blocks[q] == OneHot(widths[q], hots[q]) && hots[q] < widths[q]
    ensures HoldsBlock(Concat(blocks), Sum(widths[..j]), widths[j], hots[j])
  {
    ConcatBlock(blocks, j);
    ConcatLength(blocks, widths, j);
  }

  /** The indicator block has a single 1, at `hot`, when `hot` is inside it. */
  lemma OneHotSingle(width: nat, hot: nat)
    requires hot < width
    ensures OneHot(width, hot)[hot] == 1.0
    ensures forall q :: 0 <= q < width && q != hot ==> OneHot(width, hot)[q] == 0.0
    ensures |set q | 0 <= q < width && OneHot(width, hot)[q] == 1.0| == 1
  {
    assert (set q | 0 <= q < width && OneHot(width, hot)[q] == 1.0) == {hot};
  }

  /** After the one-hot blocks, feature row `i` holds entry `i` of each
      normalised ordinal column, in declared order. */
  lemma FeatureRowOrdinals(t: Table, cats: seq<string>, ords: seq<string>, i: nat)
    requires Encodable(t, cats, ords) && i < |t|
    ensures forall k :: 0 <= k < |ords| ==>
      FeatureRow(t, cats, ords, i)[Sum(VocabularySizes(t, cats)) + k] == OrdinalColumn(t, ords, k)[i]
  {
    forall k | 0 <= k < |ords|
      ensures FeatureRow(t, cats, ords, i)[Sum(VocabularySizes(t, cats)) + k] == OrdinalColumn(t, ords, k)[i]
    {
      FeatureRowOrdinal(t, cats, ords, i, k);
    }
  }

  /** Entry `k` after the blocks of feature row `i` is entry `i` of
      normalised ordinal column `k`. */
  lemma FeatureRowOrdinal(t: Table, cats: seq<string>, ords: seq<string>, i: nat, k: nat)
    requires Encodable(t, cats, ords) && i < |t| && k < |ords|
    ensures FeatureRow(t, cats, ords, i)[Sum(VocabularySizes(t, cats)) + k] == OrdinalColumn(t, ords, k)[i]
  {
    var part, ordinal := CategoricalPart(t, cats, i), OrdinalPart(t, ords, i);
    assert FeatureRow(t, cats, ords, i) == part + ordinal;
    assert (part + ordinal)[|part| + k] == ordinal[k];
  }

  /** The one-hot layout of feature row `i`: categorical block `j` holds the
      indicator of row `i`'s code in column `j`, and the blocks follow one
      another in declared order, each as wide as its column has distinct
      values. */
  lemma FeatureRowLayout(t: Table, cats: seq<string>, ords: seq<string>, i: nat)
    requires Encodable(t, cats, ords) && i < |t|
    ensures forall j :: 0 <= j < |cats| ==>
      HoldsBlock(FeatureRow(t, cats, ords, i), Sum(VocabularySizes(t, cats)[..j]), VocabularySizes(t, cats)[j], RowCodes(t, cats, i)[j])
  {
    forall j | 0 <= j < |cats|
      ensures HoldsBlock(FeatureRow(t, cats, ords, i), Sum(VocabularySizes(t, cats)[..j]), VocabularySizes(t, cats)[j], RowCodes(t, cats, i)[j])
    {
      FeatureRowBlock(t, cats, ords, i, j);
    }
  }

  /** Block `j` of feature row `i` is block `j` of its one-hot part. */
  lemma FeatureRowBlock(t: Table, cats: seq<string>, ords: seq<string>, i: nat, j: nat)
    requires Encodable(t, cats, ords) && i < |t| && j < |cats|
    ensures HoldsBlock(FeatureRow(t, cats, ords, i), Sum(VocabularySizes(t, cats)[..j]), VocabularySizes(t, cats)[j], RowCodes(t, cats, i)[j])
  {
    var part, ordinal := CategoricalPart(t, cats, i), OrdinalPart(t, ords, i);
    CategoricalBlock(t, cats, i, j);
    assert FeatureRow(t, cats, ords, i) == part + ordinal;
    HoldsBlockExtend(part, ordinal, Sum(VocabularySizes(t, cats)[..j]), VocabularySizes(t, cats)[j], RowCodes(t, cats, i)[j]);
  }

  /** A block held by a row is still held once more entries follow it. */
  lemma HoldsBlockExtend(row: seq<real>, more: seq<real>, offset: nat, width: nat, hot: nat)
    requires HoldsBlock(row, offset, width, hot)
    ensures HoldsBlock(row + more, offset, width, hot)
  {
    assert (row + more)[offset..offset + width] == row[offset..offset + width];
  }

  /** Ten rows, a "Country" column with three distinct values, a "Sector"
      column with two and one ordinal column give ten feature rows of width
      3 + 2 + 1. */
  lemma TenBySix(t: Table, ord: string, x: Matrix)
    requires TextColumn(t, "Country") && TextColumn(t, "Sector")
    requires |Categories(t, "Country")| == 3 && |Categories(t, "Sector")| == 2
    requires Encodable(t, ["Country", "Sector"], [ord]) && |t| == 10
    requires |x| == |t| && forall i :: 0 <= i < |t| ==> x[i] == FeatureRow(t, ["Country", "Sector"], [ord], i)
    ensures |x| == 10 && forall i :: 0 <= i < 10 ==> |x[i]| == 6
  {
    var sizes := VocabularySizes(t, ["Country", "Sector"]);
    assert sizes == [3, 2];
    assert sizes[..1] == [3];
    assert Sum(sizes) == Sum([3]) + 2;
  }
}
