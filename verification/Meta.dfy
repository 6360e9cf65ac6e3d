/** Catalog entries (src/system/sm_meta.h). */
module Meta {
  import opened Common

  datatype ColMeta = ColMeta(tabName: string, name: string, colType: ColType, len: int, offset: int, index: bool)

  datatype IndexMeta = IndexMeta(tabName: string, colTotLen: int, colNum: int, cols: seq<ColMeta>)

  datatype TabMeta = TabMeta(name: string, cols: seq<ColMeta>, indexes: seq<IndexMeta>)

  /** The number behind a column type. */
  function TypeNo(t: ColType): int {
    match t case TypeInt => 0 case TypeFloat => 1 case TypeString => 2
  }

  function ColNames(cols: seq<ColMeta>): (names: seq<string>)
    ensures |names| == |cols| && forall i :: 0 <= i < |cols| ==> names[i] == cols[i].name
  {
    seq(|cols|, i requires 0 <= i < |cols| => cols[i].name)
  }

  /** `col_num` counts the columns of the index. */
  predicate WfIndex(index: IndexMeta) {
    index.colNum == |index.cols|
  }

  predicate WfTab(tab: TabMeta) {
    forall index :: index in tab.indexes ==> WfIndex(index)
  }

  /** `TabMeta::is_index`: some index of the table has exactly the columns
      `colNames`, in that order. */
  method IsIndex(tab: TabMeta, colNames: seq<string>) returns (found: bool)
    requires WfTab(tab)
    ensures found <==> exists index :: index in tab.indexes && ColNames(index.cols) == colNames
  {
    for k := 0 to |tab.indexes|
      invariant forall j :: 0 <= j < k ==> ColNames(tab.indexes[j].cols) != colNames
    {
      var index := tab.indexes[k];
      assert index in tab.indexes;
      if index.colNum == |colNames| {
        var i := 0;
        while i < index.colNum && index.cols[i].name == colNames[i]
          invariant 0 <= i <= index.colNum
          invariant forall j :: 0 <= j < i ==> index.cols[j].name == colNames[j]
        {
          i := i + 1;
        }
        if i == index.colNum {
          assert ColNames(index.cols) == colNames;
          return true;
        }
        assert ColNames(index.cols)[i] != colNames[i];
      }
    }
    return false;
  }
}
