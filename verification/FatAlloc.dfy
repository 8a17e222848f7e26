/** create_chain and remove_chain over the windowed FAT, with the cached count of free clusters. */
module FatAlloc {
  import opened Bytes
  import opened Device
  import opened FatCodec
  import opened FatVolume
  import opened FatChain

  /** The removal loop: frees clst and what follows it. */
  method RemoveLoop(fs: Volume, clst: nat) returns (res: FResult)
    requires fs.Valid() && 2 <= clst < fs.nFatent
    modifies fs`winsect, fs`wflag, fs`raw, fs`fat, fs`freeClst, fs`fsiFlag, fs.win, fs.disk
    ensures fs.Valid() && fs.Near(old(fs.winsect), fs.winsect)
    ensures res == FR_OK || res == FR_INT_ERR || (res == FR_DISK_ERR && !fs.disk.healthy)
    ensures res != FR_DISK_ERR ==>
              var removal := RemoveFrom(old(fs.fat), clst);
              && fs.fat == removal.fat && (res == FR_OK <==> removal.ok)
              && fs.freeClst == CountUp(old(fs.freeClst), fs.nFatent, FreeCount(fs.fat) - FreeCount(old(fs.fat)))
    ensures fs.fsiFlag / 2 == old(fs.fsiFlag) / 2 && (fs.fsiFlag % 2 == 1 || fs.fsiFlag == old(fs.fsiFlag))
    ensures fs.freeClst != old(fs.freeClst) ==> fs.fsiFlag % 2 == 1
  {
    hide Volume.Valid, FreeCount, RemoveFrom;
    res := FR_OK;
    var c := clst;
    while true
      invariant fs.Valid() && fs.Near(old(fs.winsect), fs.winsect) && 2 <= c < fs.nFatent
      invariant RemoveFrom(old(fs.fat), clst) == RemoveFrom(fs.fat, c)
      invariant FreeCount(fs.fat) >= FreeCount(old(fs.fat))
      invariant fs.freeClst == CountUp(old(fs.freeClst), fs.nFatent, FreeCount(fs.fat) - FreeCount(old(fs.fat)))
      invariant fs.fsiFlag / 2 == old(fs.fsiFlag) / 2 && (fs.fsiFlag % 2 == 1 || fs.fsiFlag == old(fs.fsiFlag))
      invariant fs.freeClst != old(fs.freeClst) ==> fs.fsiFlag % 2 == 1
      decreases fs.nFatent - FreeCount(fs.fat)
    {
      RemoveStep(fs.fat, c);
      if fs.fat[c] != 0 {
        CountOneMore(fs.freeClst, fs.fat, c);
      }
      var nxt := fs.GetFat(c);
      if nxt == 0 { return FR_OK; }
      if nxt == 1 { return FR_INT_ERR; }
      if nxt == DISK_ERROR { return FR_DISK_ERR; }
      res := fs.PutFat(c, 0);
      if res != FR_OK { return; }
      if fs.freeClst < fs.nFatent - 2 {
        fs.freeClst := fs.freeClst + 1;
        fs.fsiFlag := if fs.fsiFlag % 2 == 0 then fs.fsiFlag + 1 else fs.fsiFlag;
      }
      if nxt >= fs.nFatent { return FR_OK; }
      c := nxt;
    }
  }

  /** Frees the chain from clst; pclst is the cluster before it, or 0. */
  method RemoveChain(fs: Volume, clst: nat, pclst: nat) returns (res: FResult)
    requires fs.Valid()
    modifies fs`winsect, fs`wflag, fs`raw, fs`fat, fs`freeClst, fs`fsiFlag, fs.win, fs.disk
    ensures fs.Valid() && fs.Near(old(fs.winsect), fs.winsect)
    ensures res == FR_OK || res == FR_INT_ERR || (res == FR_DISK_ERR && !fs.disk.healthy)
    ensures res != FR_DISK_ERR ==>
              RemoveOutcome(old(fs.fat), old(fs.freeClst), clst, pclst, Eoc(fs.fatType), res == FR_OK, fs.fat, fs.freeClst)
    ensures fs.fsiFlag / 2 == old(fs.fsiFlag) / 2 && (fs.fsiFlag % 2 == 1 || fs.fsiFlag == old(fs.fsiFlag))
    ensures fs.freeClst != old(fs.freeClst) ==> fs.fsiFlag % 2 == 1
  {
    hide Volume.Valid, FreeCount, RemoveFrom;
    if clst < 2 || clst >= fs.nFatent { return FR_INT_ERR; }
    if pclst != 0 {
      res := fs.PutFat(pclst, 0xFFFF_FFFF);
      if res != FR_OK { return; }
    }
    res := RemoveLoop(fs, clst);
  }

  /** The wrap-around search: 0 when there is no free cluster, 1 on an entry of 1, else the first free cluster after scl. */
  method SearchFree(fs: Volume, scl: nat) returns (ncl: nat)
    requires fs.Valid() && 1 <= scl < fs.nFatent
    modifies fs`winsect, fs`wflag, fs.win, fs.disk
    ensures fs.Valid() && fs.Near(old(fs.winsect), fs.winsect)
    ensures ncl < fs.nFatent || (ncl == DISK_ERROR && !fs.disk.healthy)
    ensures ncl == 0 ==> NoneFree(fs.fat)
    ensures ncl == 1 ==> HoldsOne(fs.fat)
    ensures 2 <= ncl < fs.nFatent ==> FirstFree(fs.fat, scl, ncl)
  {
    hide Volume.Valid;
    ncl := scl;
    while true
      invariant fs.Valid() && fs.Near(old(fs.winsect), fs.winsect)
      invariant 1 <= ncl < fs.nFatent
      invariant ncl >= scl || ncl >= 2
      invariant if ncl >= scl
                then forall c :: scl < c <= ncl ==> fs.fat[c] > 1
                else forall c :: 2 <= c < fs.nFatent && (c > scl || c <= ncl) ==> fs.fat[c] > 1
      decreases if ncl >= scl then 1 else 0, fs.nFatent - ncl
    {
      ncl := ncl + 1;
      if ncl >= fs.nFatent {
        ncl := 2;
        if ncl > scl { return 0; }
      }
      var cs := fs.GetFat(ncl);
      if cs == 0 { return; }
      if cs == 1 || cs == DISK_ERROR { return cs; }
      if ncl == scl { return 0; }
    }
  }

  /** The free cluster to take: the next one if it is free, else the first after the last one allocated. */
  method PickFree(fs: Volume, clst: nat, scl: nat) returns (ncl: nat)
    requires fs.Valid() && 1 <= scl < fs.nFatent && (clst == 0 || clst == scl)
    modifies fs`winsect, fs`wflag, fs.win, fs.disk
    ensures fs.Valid() && fs.Near(old(fs.winsect), fs.winsect)
    ensures ncl < fs.nFatent || (ncl == DISK_ERROR && !fs.disk.healthy)
    ensures ncl == 0 ==> NoneFree(fs.fat)
    ensures ncl == 1 ==> HoldsOne(fs.fat)
    ensures 2 <= ncl < fs.nFatent ==> fs.fat[ncl] == 0
    ensures 2 <= ncl < fs.nFatent && !(clst != 0 && ncl == if scl + 1 < fs.nFatent then scl + 1 else 2) ==>
              FirstFree(fs.fat, if clst != 0 && 2 <= fs.lastClst < fs.nFatent then fs.lastClst else scl, ncl)
    ensures clst != 0 && fs.fat[if scl + 1 < fs.nFatent then scl + 1 else 2] == 0 && ncl != DISK_ERROR ==>
              ncl == if scl + 1 < fs.nFatent then scl + 1 else 2
  {
    hide Volume.Valid;
    ncl := 0;
    var from := scl;
    if scl == clst {
      ncl := scl + 1;
      if ncl >= fs.nFatent { ncl := 2; }
      var cs := fs.GetFat(ncl);
      if cs == 1 || cs == DISK_ERROR { return cs; }
      if cs != 0 {
        cs := fs.lastClst;
        if 2 <= cs < fs.nFatent { from := cs; }
        ncl := 0;
      }
    }
    if ncl == 0 {
      ncl := SearchFree(fs, from);
    }
  }

  /** Marks ncl as the end of a chain and links it from clst. */
  method TakeCluster(fs: Volume, clst: nat, ncl: nat) returns (res: FResult)
    requires fs.Valid() && 2 <= ncl < fs.nFatent && (clst == 0 || 2 <= clst < fs.nFatent)
    modifies fs`winsect, fs`wflag, fs`raw, fs`fat, fs.win, fs.disk
    ensures fs.Valid() && fs.Near(old(fs.winsect), fs.winsect)
    ensures res == FR_OK || (res == FR_DISK_ERR && !fs.disk.healthy)
    ensures res == FR_OK ==> fs.fat == Taken(old(fs.fat), clst, ncl, Eoc(fs.fatType))
    ensures res == FR_OK ==> fs.OnFat()
  {
    hide Volume.Valid;
    EocCut(fs.fatType);
    CutSmall(fs.fatType, ncl);
    res := fs.PutFat(ncl, 0xFFFF_FFFF);
    if res == FR_OK && clst != 0 {
      res := fs.PutFat(clst, ncl);
    }
  }

  /** Starts a chain (clst == 0) or follows or stretches the one clst is in.
      0: no free cluster, 1: the map is damaged, DISK_ERROR, else the new or next cluster. */
  method CreateChain(fs: Volume, clst: nat) returns (ncl: nat)
    requires fs.Valid()
    modifies fs`winsect, fs`wflag, fs`raw, fs`fat, fs`freeClst, fs`lastClst, fs`fsiFlag, fs.win, fs.disk
    ensures fs.Valid() && fs.Near(old(fs.winsect), fs.winsect)
    ensures ncl < fs.nFatent || (ncl == DISK_ERROR && !fs.disk.healthy)
    ensures ncl != DISK_ERROR ==>
              CreateOutcome(old(fs.fat), old(fs.freeClst), clst, ncl, Eoc(fs.fatType), fs.fat, fs.freeClst)
    ensures 2 <= ncl < fs.nFatent && !HasNext(old(fs.fat), clst) ==> fs.lastClst == ncl && fs.OnFat()
    ensures ncl < 2 || HasNext(old(fs.fat), clst) ==> fs.lastClst == old(fs.lastClst)
    ensures 2 <= ncl < fs.nFatent && !HasNext(old(fs.fat), clst) ==> Chosen(old(fs.fat), clst, old(fs.lastClst), ncl)
    ensures fs.fsiFlag / 2 == old(fs.fsiFlag) / 2 && (fs.fsiFlag % 2 == 1 || fs.fsiFlag == old(fs.fsiFlag))
    ensures fs.freeClst != old(fs.freeClst) || fs.lastClst != old(fs.lastClst) ==> fs.fsiFlag % 2 == 1
  {
    hide Volume.Valid, Taken, Eoc;
    var scl;
    if clst == 0 {
      scl := fs.lastClst;
      if scl == 0 || scl >= fs.nFatent { scl := 1; }
    } else {
      var cs := fs.GetFat(clst);
      if cs < 2 { return 1; }
      if cs == DISK_ERROR { return cs; }
      if cs < fs.nFatent { return cs; }
      scl := clst;
    }
    if fs.freeClst == 0 { return 0; }
    ncl := PickFree(fs, clst, scl);
    if ncl < 2 || ncl == DISK_ERROR { return; }
    var res := TakeCluster(fs, clst, ncl);
    if res == FR_OK {
      fs.lastClst := ncl;
      if fs.freeClst <= fs.nFatent - 2 { fs.freeClst := fs.freeClst - 1; }
      fs.fsiFlag := if fs.fsiFlag % 2 == 0 then fs.fsiFlag + 1 else fs.fsiFlag;
    } else {
      ncl := DISK_ERROR; // put_fat cannot have been given a cluster out of range here
    }
  }
}
