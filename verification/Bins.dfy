/** The bins of an arena: small chunks by exact size, large ones in the tries. */
module Bins {
  import opened SizeBits
  import BinMaps
  import SmallBins
  import Tags
  import TreeBins

  const MIN_CHUNK_SIZE: int := 16

  /** A small chunk of this size is among these chunks. */
  ghost predicate Has(c: map<int, int>, s: int) {
    s < MIN_LARGE_SIZE && exists y :: y in c && c[y] == s
  }

  /** IS_SMALL */
  predicate IsSmall(s: int) {
    s / 8 < SmallBins.NSMALLBINS
  }

  class BinSet {
    const small: SmallBins.SmallBin
    const trees: TreeBins.TreeBin

    ghost function Large(): map<int, int>
      reads this, trees
    {
      TreeBins.Sizes(trees.View())
    }

    /** All chunks in bins with their sizes. */
    ghost function Contents(): map<int, int>
      reads this, small, trees
    {
      small.sizes + Large()
    }

    ghost predicate Valid()
      reads this, small, trees
    {
      && SmallBins.Ok(small.View()) && TreeBins.Ok(trees.View())
      && (forall i :: i in trees.marked ==> 0 <= i < NTREEBINS)
      && (forall x {:trigger x in small.sizes} {:trigger x in trees.chunks} :: !(x in small.sizes && x in trees.chunks))
    }

    constructor ()
      ensures Valid() && Contents() == map[] && fresh(small) && fresh(trees)
    {
      small := new SmallBins.SmallBin();
      trees := new TreeBins.TreeBin();
    }

    /** InsertChunk */
    method InsertChunk(p: int, s: int)
      requires Valid() && p > 0 && p !in Contents() && MIN_CHUNK_SIZE <= s < WORD && s % 8 == 0
      modifies small, trees
      ensures Valid() && Contents() == old(Contents())[p := s]
    {
      ghost var m, l := small.sizes, Large();
      if IsSmall(s) {
        small.InsertSmallChunk(p, s);
        Tags.SameMap(Contents(), (m + l)[p := s]);
      } else {
        trees.InsertLargeChunk(p, s);
        Tags.SameMap(Contents(), (m + l)[p := s]);
      }
    }

    /** InsertSmallChunk for a chunk known to be small. */
    method InsertSmall(p: int, s: int)
      requires Valid() && p > 0 && p !in Contents() && MIN_CHUNK_SIZE <= s < MIN_LARGE_SIZE && s % 8 == 0
      modifies small
      ensures Valid() && Contents() == old(Contents())[p := s]
    {
      ghost var m, l := small.sizes, Large();
      small.InsertSmallChunk(p, s);
      Tags.SameMap(Contents(), (m + l)[p := s]);
    }

    /** UnlinkChunk */
    method UnlinkChunk(p: int, s: int)
      requires Valid() && p in Contents() && Contents()[p] == s
      modifies small, trees
      ensures Valid() && Contents() == old(Contents()) - {p}
    {
      ghost var m, l := small.sizes, Large();
      SizesOk(p);
      if IsSmall(s) {
        small.UnlinkSmallChunk(p, s);
        Tags.SameMap(Contents(), (m + l) - {p});
      } else {
        trees.UnlinkLargeChunk(p);
        Tags.SameMap(Contents(), (m + l) - {p});
      }
    }

    /** The best fit among the large chunks, for a request that no small chunk can hold. */
    method FindLarge(nb: int) returns (v: int, rsize: int)
      requires Valid() && MIN_LARGE_SIZE <= nb < WORD
      ensures if v == 0 then rsize == WORD - nb else v in Contents() && Contents()[v] == nb + rsize && 0 <= rsize
      ensures forall x :: x in Contents() && nb <= Contents()[x] ==> v != 0 && Contents()[v] <= Contents()[x]
    {
      v, rsize := trees.FindLarge(nb);
      FoundIn(v, nb, rsize);
    }

    /** The smallest of the large chunks. */
    method FindSmallest(nb: int) returns (v: int, rsize: int)
      requires Valid() && 0 < nb < MIN_LARGE_SIZE && trees.marked != {}
      ensures v in Contents() && Contents()[v] == nb + rsize && 0 <= rsize && v in trees.chunks
      ensures forall x :: x in Contents() && !IsSmall(Contents()[x]) ==> Contents()[v] <= Contents()[x]
    {
      v, rsize := trees.FindSmallest(nb);
      FoundIn(v, nb, rsize);
      forall x | x in Contents() && !IsSmall(Contents()[x]) ensures Contents()[v] <= Contents()[x] {
        SizesOk(x);
        SizesOk(v);
      }
    }

    lemma FoundIn(v: int, nb: nat, rsize: nat)
      requires Valid() && nb < WORD && TreeBins.Found(trees.View(), v, nb, rsize) && TreeBins.BestFit(trees.View(), v, nb)
      ensures v == 0 ==> rsize == WORD - nb
      ensures v != 0 ==> v in Contents() && Contents()[v] == nb + rsize && v in trees.chunks
      ensures MIN_LARGE_SIZE <= nb ==>
                forall x :: x in Contents() && nb <= Contents()[x] ==> v != 0 && Contents()[v] <= Contents()[x]
    {
      if v != 0 {
        SizesOk(v);
      }
      forall x | x in Contents() && nb <= Contents()[x] && MIN_LARGE_SIZE <= nb
        ensures v != 0 && Contents()[v] <= Contents()[x]
      {
        SizesOk(x);
      }
    }

    /** A small bin is marked if and only if a chunk of its size is binned. */
    lemma MarkedHas(i: int)
      requires Valid() && 0 <= i
      ensures i in small.marked <==> Has(Contents(), 8 * i)
    {
      if i in small.marked {
        SmallBins.MarkedIs(small.View(), i);
        SmallBins.FrontIs(small.View(), i);
        var p := SmallBins.Fd(small.View(), SmallBins.BinPtr(i));
        SizesOk(p);
        assert p in Contents() && Contents()[p] == 8 * i;
      }
      if Has(Contents(), 8 * i) {
        var y :| y in Contents() && Contents()[y] == 8 * i;
        SizesOk(y);
      }
    }

    /** The first marked small bin from idx on holds the smallest binned chunks from its size on. */
    lemma LeastMarked(idx: int, i: int)
      requires Valid() && 0 <= idx <= i && i in small.marked && forall j :: idx <= j < i ==> j !in small.marked
      ensures forall y :: y in Contents() && 8 * idx <= Contents()[y] ==> 8 * i <= Contents()[y]
    {
      SmallBins.MarkedIs(small.View(), i);
      forall y | y in Contents() && 8 * idx <= Contents()[y] ensures 8 * i <= Contents()[y] {
        SizesOk(y);
      }
    }

    /** Without a marked small bin from idx on, binned chunks of that size are large. */
    lemma NoneSmall(idx: int)
      requires Valid() && 0 <= idx && forall j :: idx <= j ==> j !in small.marked
      ensures forall y :: y in Contents() && 8 * idx <= Contents()[y] ==> !IsSmall(Contents()[y])
    {
      forall y | y in Contents() && 8 * idx <= Contents()[y] ensures !IsSmall(Contents()[y]) {
        SizesOk(y);
      }
    }

    /** UnlinkFirstSmallChunk */
    method TakeFirst(i: int) returns (p: int)
      requires Valid() && i in small.marked
      modifies small
      ensures p in old(Contents()) && old(Contents())[p] == 8 * i && 0 <= i < SmallBins.NSMALLBINS
      ensures Valid() && Contents() == old(Contents()) - {p}
    {
      ghost var m, l := small.sizes, Large();
      SmallBins.MarkedIs(small.View(), i);
      p := small.UnlinkFirstSmallChunk(i);
      Tags.SameMap(Contents(), (m + l) - {p});
    }

    /** The first marked small bin from idx on, or -1. */
    method FirstSmall(idx: int) returns (i: int)
      requires Valid() && 0 <= idx < SmallBins.NSMALLBINS
      ensures 0 <= i ==> idx <= i && i in small.marked
      ensures forall j :: idx <= j && (i < 0 || j < i) ==> j !in small.marked
    {
      hide Valid;
      MarksSmall();
      i := BinMaps.FirstMarked(small.marked, idx - 1);
    }

    lemma MarksSmall()
      requires Valid()
      ensures forall j :: j in small.marked ==> j < SmallBins.NSMALLBINS
    {
      forall j | j in small.marked ensures j < SmallBins.NSMALLBINS {
        SmallBins.MarkedIs(small.View(), j);
      }
    }

    /** No marked small bin from idx on and no tree: no binned chunk is that large. */
    lemma NothingFits(idx: int)
      requires Valid() && 0 <= idx && (forall j :: idx <= j ==> j !in small.marked) && trees.marked == {}
      ensures forall x :: x in Contents() ==> Contents()[x] < 8 * idx
    {
      forall x | x in Contents() ensures Contents()[x] < 8 * idx {
        SizesOk(x);
        if x in trees.chunks {
          NoTrees(x);
        }
      }
    }

    lemma NoTrees(x: int)
      requires Valid() && x in trees.chunks
      ensures trees.marked != {}
    {
      var v := trees.View();
      TreeBins.NodeIs(v, x);
      TreeBins.UnderRoot(v, TreeBins.Head(v, x));
      var i := TreeBins.Bin(v, TreeBins.Head(v, x));
      TreeBins.NotNull(v, TreeBins.Content(v, TreeBins.BinCell(i)));
      TreeBins.MarkedIs(v, i);
    }

    /** The size of a binned chunk says in which kind of bin it is. */
    lemma SizesOk(p: int)
      requires Valid() && p in Contents()
      ensures var s := Contents()[p];
        && p > 0 && MIN_CHUNK_SIZE <= s < WORD && s % 8 == 0
        && (IsSmall(s) <==> p in small.sizes) && (!IsSmall(s) <==> p in trees.chunks)
        && (p in small.sizes ==> small.sizes[p] == s && SmallBins.Index(s) in small.marked)
        && (p in trees.chunks ==> trees.chunks[p].size == s && TreeBins.Size(trees.View(), p) == s)
    {
      if p in small.sizes {
        SmallBins.ChunkIs(small.View(), p);
      } else {
        TreeBins.NodeIs(trees.View(), p);
      }
    }
  }
}
