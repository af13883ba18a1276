/**
 * The growable array of collected names (image_files, image_count and
 * array_size in main of rename_images.c).
 */
module Collection {
  import opened Bytes

  /** The initial value of array_size. */
  const InitialCapacity: nat := 10

  function Pow2(k: nat): (r: nat)
    ensures r >= 1
  {
    if k == 0 then 1 else 2 * Pow2(k - 1)
  }

  /**
   * image_files is an array of array_size slots of which the first
   * image_count hold the names collected so far.
   */
  class ImageList {
    var files: array<seq<byte>>
    var count: nat
    var size: nat
    /** How often the array has been doubled. */
    ghost var doublings: nat

    /**
     * The count never exceeds the capacity, the capacity is 10 * 2^k, and it
     * was only ever doubled when full, so beyond its initial value it is less
     * than twice the count.
     */
    ghost predicate Valid()
      reads this
    {
      files.Length == size &&
      count <= size &&
      size == InitialCapacity * Pow2(doublings) &&
      (size == InitialCapacity || size < 2 * count)
    }

    /** The names collected so far, in the order they were added. */
    ghost function Contents(): seq<seq<byte>>
      reads this, files
      requires Valid()
    {
      files[..count]
    }

    /** malloc(array_size * sizeof(char *)) with array_size = 10 and image_count = 0. */
    constructor ()
      ensures Valid() && fresh(files)
      ensures Contents() == [] && size == InitialCapacity && doublings == 0
    {
      files := new seq<byte>[InitialCapacity];
      count := 0;
      size := InitialCapacity;
      doublings := 0;
    }

    /**
     * Stores a copy of name at image_count, doubling array_size first (and
     * moving the names to the larger array, as realloc does) when the array
     * is full.
     */
    method Push(name: seq<byte>)
      requires Valid()
      modifies this, files
      ensures Valid()
      ensures Contents() == old(Contents()) + [name]
      ensures count == old(count) + 1
      ensures old(count) >= old(size) ==> size == 2 * old(size) && doublings == old(doublings) + 1 && fresh(files)
      ensures old(count) < old(size) ==> size == old(size) && doublings == old(doublings) && files == old(files)
    {
      if count >= size {
        size := size * 2;
        doublings := doublings + 1;
        var grown := new seq<byte>[size];
        forall i | 0 <= i < count {
          grown[i] := files[i];
        }
        files := grown;
      }
      files[count] := name;
      count := count + 1;
    }
  }
}
