/** Failure kinds the clustering code signals with RuntimeException, and the
    two double constants it uses as sentinels. */
module Common {

  /** DimensionMismatch: PointSet.add or Point.distance on points of different
      lengths; IndexOutOfRange: Point.feature outside [0, length);
      InsufficientPoints: PSA.partition asked for more partitions than points. */
  datatype Error = DimensionMismatch | IndexOutOfRange | InsufficientPoints

  datatype Result<T> = Ok(value: T) | Err(error: Error)

  datatype Option<T> = None | Some(value: T)

  /** Double.MAX_VALUE, the largest finite double: (2^53 - 1) * 2^971. */
  const MAX_VALUE: real := 179769313486231570814527423731704356798070567525844996598917476803157260780028538760589558632766878171540458953514382464234321326889464182768467546703537516986049910576551282076245490090389328944075868508455133942304583236903222948165808559332123348274797826204144723168738177180919299881250404026184124858368.0

  /** Integer.MAX_VALUE, the largest Java int: 2^31 - 1. */
  const INT_MAX: int := 0x7fff_ffff

  /** Double.MIN_VALUE, the smallest POSITIVE double: 2^-1074. */
  const MIN_VALUE: real := 1.0 / 202402253307310618352495346718917307049556649764142118356901358027430339567995346891960383701437124495187077864316811911389808737385793476867013399940738509921517424276566361364466907742093216341239767678472745068562007483424692698618103355649159556340810056512358769552333414615230502532186327508646006263307707741093494784.0
}
