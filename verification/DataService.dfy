// What the nodes' data services have on offer, as the collectives between nodes see it.
module DataService {
  // A node and the number of one of its transfers.
  type Key = (nat, nat)

  datatype Offer<+T> = Offer(tensor: T, left: nat)

  type Service<T> = map<Key, Offer<T>>

  // One download; the last one uses the exposure up.
  function Downloaded<T>(service: Service<T>, key: Key): Service<T>
    requires key in service
  {
    var offer := service[key];
    if offer.left <= 1 then service - {key} else service[key := Offer(offer.tensor, offer.left - 1)]
  }
}
