/** The iterator categories that the algorithms dispatch on.  An iterator
    itself is an integer position in the sequence or array it walks. */
module IteratorTraits {

  /** A forward iterator takes the input-iterator paths of `advance`; the
      shift algorithms accept forward iterators and better. */
  datatype Category = InputIter | ForwardIter | BidirectionalIter | RandomAccessIter
  {
    predicate IsBidirectional() { BidirectionalIter? || RandomAccessIter? }
  }
}
