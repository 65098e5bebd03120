/**
  The in-core inode and its copy to and from the disk inode (src/inode/inCoreiNode.c).
 */
module INode {
  import opened Params
  import opened FileMap

  datatype Kind = Unused | Regular | Directory

  datatype DiskINode = DiskINode(
    deviceNumber: nat,
    inodeNumber: nat,
    access: int,
    modification: int,
    statusChange: int,
    linksCount: nat,
    kind: Kind,
    fileMode: nat,
    ownerUid: nat,
    groupUid: nat,
    dataBlockNums: Slots,
    size: nat)

  // A zeroed inode.
  function Blank(): DiskINode {
    DiskINode(0, 0, 0, 0, 0, 0, Unused, 0, 0, 0, seq(BLOCKS_IN_INODE, _ => 0), 0)
  }

  class InCoreINode {
    var referenceCount: nat
    var deviceNumber: nat
    var inodeNumber: nat
    var access: int
    var modification: int
    var statusChange: int
    var linksCount: nat
    var kind: Kind
    var fileMode: nat
    var ownerUid: nat
    var groupUid: nat
    var dataBlockNums: Slots
    var inodeChanged: bool
    var fileDataChanged: bool
    var size: nat

    constructor ()
      ensures referenceCount == 0 && AsDisk() == Blank()
      ensures !inodeChanged && !fileDataChanged
    {
      referenceCount, deviceNumber, inodeNumber, linksCount, size := 0, 0, 0, 0, 0;
      access, modification, statusChange := 0, 0, 0;
      kind, fileMode, ownerUid, groupUid := Unused, 0, 0, 0;
      dataBlockNums := seq(BLOCKS_IN_INODE, _ => 0);
      inodeChanged, fileDataChanged := false, false;
    }

    // The disk inode this in-core inode stands for.
    function AsDisk(): DiskINode
      reads this
    {
      DiskINode(deviceNumber, inodeNumber, access, modification, statusChange, linksCount, kind, fileMode,
                ownerUid, groupUid, dataBlockNums, size)
    }

    method InsertDiskINodeData(diskINode: DiskINode)
      modifies this
      ensures AsDisk() == diskINode && deviceNumber == diskINode.deviceNumber && inodeNumber == diskINode.inodeNumber
      ensures access == diskINode.access && modification == diskINode.modification
      ensures statusChange == diskINode.statusChange && linksCount == diskINode.linksCount && kind == diskINode.kind
      ensures fileMode == diskINode.fileMode && ownerUid == diskINode.ownerUid && groupUid == diskINode.groupUid
      ensures dataBlockNums == diskINode.dataBlockNums && size == diskINode.size
      ensures referenceCount == old(referenceCount)
      ensures inodeChanged == old(inodeChanged) && fileDataChanged == old(fileDataChanged)
    {
      deviceNumber := diskINode.deviceNumber;
      inodeNumber := diskINode.inodeNumber;
      access := diskINode.access;
      modification := diskINode.modification;
      statusChange := diskINode.statusChange;
      linksCount := diskINode.linksCount;
      kind := diskINode.kind;
      fileMode := diskINode.fileMode;
      ownerUid := diskINode.ownerUid;
      groupUid := diskINode.groupUid;
      size := diskINode.size;
      var index := 0;
      while index < BLOCKS_IN_INODE
        invariant index <= BLOCKS_IN_INODE
        invariant dataBlockNums[..index] == diskINode.dataBlockNums[..index]
        invariant AsDisk().(dataBlockNums := diskINode.dataBlockNums) == diskINode
        invariant referenceCount == old(referenceCount)
        invariant inodeChanged == old(inodeChanged) && fileDataChanged == old(fileDataChanged)
      {
        dataBlockNums := dataBlockNums[index := diskINode.dataBlockNums[index]];
        index := index + 1;
      }
      assert dataBlockNums == diskINode.dataBlockNums;
    }

    method GetDiskINodeData() returns (diskINode: DiskINode)
      ensures diskINode == AsDisk()
    {
      var nums: Slots := seq(BLOCKS_IN_INODE, _ => 0);
      var index := 0;
      while index < BLOCKS_IN_INODE
        invariant index <= BLOCKS_IN_INODE
        invariant nums[..index] == dataBlockNums[..index]
      {
        nums := nums[index := dataBlockNums[index]];
        index := index + 1;
      }
      assert nums == dataBlockNums;
      diskINode := DiskINode(deviceNumber, inodeNumber, access, modification, statusChange, linksCount, kind,
                             fileMode, ownerUid, groupUid, nums, size);
    }

    // updateINodeMetadata of src/incoreInodeOps/iNodeManager.c, the clock aside.
    method UpdateMetadata(sizeDifference: int, linkCount: nat)
      requires size + sizeDifference >= 0
      modifies this`size, this`linksCount, this`fileDataChanged, this`inodeChanged
      ensures size == old(size) + sizeDifference && linksCount == linkCount && inodeChanged
      ensures fileDataChanged == (old(fileDataChanged) || sizeDifference != 0)
    {
      size := size + sizeDifference;
      linksCount := linkCount;
      if sizeDifference != 0 {
        fileDataChanged := true;
      }
      inodeChanged := true;
    }
  }
}
