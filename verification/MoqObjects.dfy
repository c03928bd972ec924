/** Objects of a MoQ track, their locations, and the layer limits a subscriber may have. */
module MoqObjects {
  import opened Wrappers
  import opened Bytes

  const MAX_VARINT: nat := 0x3FFF_FFFF_FFFF_FFFF

  /** Locations are ordered by group, then by object within the group. */
  datatype Location = Location(group: nat, obj: nat) {
    predicate Before(that: Location) {
      group < that.group || (group == that.group && obj < that.obj)
    }
  }

  /** `marking` is the value of the frame marking property, when the object has one. */
  datatype Object = Object(at: Location, subgroup: nat, marking: Option<nat>, payload: seq<byte>) {
    /** The word that holds the layer ids: the spatial one above the temporal one, a byte each. */
    function LayerWord(): nat {
      match marking case Some(value) => value case None => subgroup
    }

    function Temporal(): nat { LayerWord() % 0x100 }

    function Spatial(): nat { LayerWord() / 0x100 % 0x100 }
  }

  /** A negative limit is none; the others are compared as bytes. */
  predicate Within(layer: nat, limit: int) {
    limit < 0 || layer <= limit % 0x100
  }

  predicate WithinLimits(o: Object, maxTemporal: int, maxSpatial: int) {
    Within(o.Temporal(), maxTemporal) && Within(o.Spatial(), maxSpatial)
  }

  method ObjectWithinLimits(o: Object, maxTemporal: int, maxSpatial: int) returns (ok: bool)
    ensures ok == WithinLimits(o, maxTemporal, maxSpatial)
  {
    if maxTemporal < 0 && maxSpatial < 0 {
      return true;
    }
    var temporal, spatial;
    if o.marking.Some? {
      temporal, spatial := o.marking.value % 0x100, o.marking.value / 0x100 % 0x100;
    } else {
      temporal, spatial := o.subgroup % 0x100, o.subgroup / 0x100 % 0x100;
    }
    if maxTemporal >= 0 && temporal > maxTemporal % 0x100 {
      return false;
    }
    if maxSpatial >= 0 && spatial > maxSpatial % 0x100 {
      return false;
    }
    ok := true;
  }
}
