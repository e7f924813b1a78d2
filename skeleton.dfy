/*
 * Model of DAVA::SkeletonComponent (Sources/Internal/Scene3D/Components/SkeletonComponent.h):
 * the uid-to-joint-index map, the per-joint info word that packs a parent
 * index, a target index and update flags, and the "first joint updated this
 * frame" cursor that SetJointTransform maintains.
 *
 * FastName is modelled as a string. Rotations, positions and bounding boxes are
 * carried as opaque payload: the transform arithmetic is not part of this model.
 */
module Skeleton {

  newtype uint16 = x: int | 0 <= x < 0x1_0000

  /** Returned for an unknown uid; equal to the parent mask. */
  const INVALID_JOINT_INDEX: uint16 := 0xff

  const INFO_PARENT_MASK: bv32 := 0xff
  const INFO_TARGET_SHIFT: bv32 := 8
  const INFO_FLAG_BASE: bv32 := 0x10000
  const FLAG_UPDATED_THIS_FRAME: bv32 := INFO_FLAG_BASE << 0
  const FLAG_MARKED_FOR_UPDATED: bv32 := INFO_FLAG_BASE << 1

  type FastName = string

  /** A joint as configured; geometry fields are payload only. */
  datatype Joint = Joint(parentIndex: int, targetIndex: int, name: FastName, uid: FastName)

  datatype Vector3 = Vector3(x: real, y: real, z: real)
  datatype Quaternion = Quaternion(x: real, y: real, z: real, w: real)

  datatype JointTransform = JointTransform(orientation: Quaternion, position: Vector3, scale: real)

  /** The parent field of an info word. */
  function ParentField(info: bv32): bv32
  {
    info & INFO_PARENT_MASK
  }

  /** The target field of an info word: the 8 bits above the parent field. */
  function TargetField(info: bv32): bv32
  {
    (info >> INFO_TARGET_SHIFT) & 0xff
  }

  predicate MarkedForUpdate(info: bv32)
  {
    info & FLAG_MARKED_FOR_UPDATED != 0
  }

  predicate UpdatedThisFrame(info: bv32)
  {
    info & FLAG_UPDATED_THIS_FRAME != 0
  }

  /**
   * The flag bits do not overlap the parent and target fields: setting the
   * "marked for update" flag keeps both fields and the other flag, and marks.
   */
  lemma MarkKeepsFields(info: bv32)
    ensures ParentField(info | FLAG_MARKED_FOR_UPDATED) == ParentField(info)
    ensures TargetField(info | FLAG_MARKED_FOR_UPDATED) == TargetField(info)
    ensures UpdatedThisFrame(info | FLAG_MARKED_FOR_UPDATED) == UpdatedThisFrame(info)
    ensures MarkedForUpdate(info | FLAG_MARKED_FOR_UPDATED)
  {
  }

  /** Every flag lies at or above INFO_FLAG_BASE, clear of both 8-bit fields. */
  lemma FlagsClearOfFields()
    ensures FLAG_UPDATED_THIS_FRAME & (INFO_PARENT_MASK | (0xff << INFO_TARGET_SHIFT)) == 0
    ensures FLAG_MARKED_FOR_UPDATED & (INFO_PARENT_MASK | (0xff << INFO_TARGET_SHIFT)) == 0
    ensures FLAG_UPDATED_THIS_FRAME & FLAG_MARKED_FOR_UPDATED == 0
  {
  }

  function Min(a: uint16, b: uint16): (r: uint16)
    ensures r <= a && r <= b && (r == a || r == b)
  {
    if a < b then a else b
  }

  class SkeletonComponent {
    var jointsArray: seq<Joint>
    var jointsCount: uint16
    var jointInfo: seq<bv32>
    var localSpaceTransforms: seq<JointTransform>
    var jointMap: map<FastName, uint16>
    var startJoint: uint16
    var configUpdated: bool

    /** The runtime arrays hold one entry per joint. */
    ghost predicate Valid()
      reads this
    {
      |jointInfo| == jointsCount as int && |localSpaceTransforms| == jointsCount as int
    }

    /** The defaulted member initialisers of the header. */
    constructor ()
      ensures Valid()
      ensures jointsArray == [] && jointsCount == 0 && jointMap == map[]
      ensures startJoint == 0 && configUpdated
    {
      jointsArray := [];
      jointsCount := 0;
      jointInfo := [];
      localSpaceTransforms := [];
      jointMap := map[];
      startJoint := 0;
      configUpdated := true;
    }

    /** The index of the joint with this uid, or INVALID_JOINT_INDEX when unknown. */
    function GetJointIndex(uid: FastName): (r: uint16)
      reads this
      ensures uid in jointMap ==> r == jointMap[uid]
      ensures uid !in jointMap ==> r == INVALID_JOINT_INDEX
    {
      if uid in jointMap then jointMap[uid] else INVALID_JOINT_INDEX
    }

    /** The joint count, which is also the length of the runtime arrays. */
    function GetJointsCount(): (r: uint16)
      reads this
      requires Valid()
      ensures r as int == |jointInfo| == |localSpaceTransforms|
    {
      jointsCount
    }

    /** The configured joint at index i; the source does not check the index. */
    function GetJoint(i: uint16): (r: Joint)
      reads this
      requires (i as int) < |jointsArray|
      ensures r in jointsArray
    {
      jointsArray[i]
    }

    /** The local transform of a joint, which the source asserts to exist. */
    function GetJointTransform(jointIndex: uint16): (r: JointTransform)
      reads this
      requires Valid() && jointIndex < jointsCount
      ensures r in localSpaceTransforms
    {
      localSpaceTransforms[jointIndex]
    }

    /** Replaces the configuration and requests a rebuild; runtime state is untouched. */
    method SetJoints(config: seq<Joint>)
      modifies this
      ensures jointsArray == config && configUpdated
      ensures forall i: uint16 :: (i as int) < |config| ==> GetJoint(i) == config[i]
      ensures jointsCount == old(jointsCount) && jointInfo == old(jointInfo)
      ensures localSpaceTransforms == old(localSpaceTransforms) && jointMap == old(jointMap)
      ensures startJoint == old(startJoint)
    {
      jointsArray := config;
      configUpdated := true;
    }

    /** Requests a rebuild and changes nothing else. */
    method Rebuild()
      modifies this
      ensures configUpdated
      ensures jointsArray == old(jointsArray) && jointsCount == old(jointsCount)
      ensures jointInfo == old(jointInfo) && localSpaceTransforms == old(localSpaceTransforms)
      ensures jointMap == old(jointMap) && startJoint == old(startJoint)
    {
      configUpdated := true;
    }

    /**
     * Stores a joint's local transform, marks the joint for update and moves
     * the start cursor down to it if it lies below.
     */
    method SetJointTransform(jointIndex: uint16, transform: JointTransform)
      requires Valid()
      requires jointIndex < jointsCount
      modifies this
      ensures Valid()
      ensures jointInfo == old(jointInfo)[jointIndex := old(jointInfo)[jointIndex] | FLAG_MARKED_FOR_UPDATED]
      ensures localSpaceTransforms == old(localSpaceTransforms)[jointIndex := transform]
      ensures GetJointTransform(jointIndex) == transform
      ensures forall j: uint16 :: j < jointsCount && j != jointIndex ==> GetJointTransform(j) == old(GetJointTransform(j))
      ensures startJoint == Min(old(startJoint), jointIndex)
      ensures startJoint <= jointIndex && startJoint <= old(startJoint)
      ensures MarkedForUpdate(jointInfo[jointIndex])
      ensures ParentField(jointInfo[jointIndex]) == ParentField(old(jointInfo)[jointIndex])
      ensures TargetField(jointInfo[jointIndex]) == TargetField(old(jointInfo)[jointIndex])
      ensures forall j :: 0 <= j < |jointInfo| && j != jointIndex as int ==>
                jointInfo[j] == old(jointInfo)[j] && localSpaceTransforms[j] == old(localSpaceTransforms)[j]
      ensures jointsArray == old(jointsArray) && jointsCount == old(jointsCount)
      ensures jointMap == old(jointMap) && configUpdated == old(configUpdated)
    {
      var info := jointInfo[jointIndex];
      var marked := info | FLAG_MARKED_FOR_UPDATED;
      MarkKeepsFields(info);
      jointInfo := jointInfo[jointIndex := marked];
      localSpaceTransforms := localSpaceTransforms[jointIndex := transform];
      startJoint := Min(startJoint, jointIndex);
    }
  }

  /**
   * When no uid is mapped to INVALID_JOINT_INDEX, GetJointIndex returns it
   * exactly for unknown uids.
   */
  lemma GetJointIndexInvalidIff(c: SkeletonComponent, uid: FastName)
    requires forall u :: u in c.jointMap ==> c.jointMap[u] != INVALID_JOINT_INDEX
    ensures c.GetJointIndex(uid) == INVALID_JOINT_INDEX <==> uid !in c.jointMap
  {
  }
}
