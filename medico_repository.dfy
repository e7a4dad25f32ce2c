/** The practitioner repository: the active listing and the native query that
    picks a free active practitioner at an instant. */
module MedicoRepository {
  import opened Base
  import opened Tempo
  import opened DominioConsulta
  import CR = ConsultaRepository

  /** What the core reads of a practitioner: whether the account is active. */
  datatype Medico = Medico(ativo: bool)

  /** The ids of the active practitioners. */
  function FindAllByAtivoTrue(medicos: map<int, Medico>): set<int> {
    set id | id in medicos && medicos[id].ativo
  }

  /** The rows the native query can return: active practitioners with no
      active appointment at exactly `dataHora` (the left join finds none). */
  function Livres(medicos: map<int, Medico>, tabela: CR.Tabela, dataHora: Instante): set<int> {
    set id | id in medicos && medicos[id].ativo && !CR.ExistsByMedicoIdAndDataHoraAndAtivoTrue(tabela, id, dataHora)
  }

  /** `ORDER BY RAND() LIMIT 1`: at most one practitioner, any of the eligible
      ones; none exactly when every active practitioner is busy at `dataHora`. */
  method EscolherMedicoAleatorioLivreNaData(medicos: map<int, Medico>, tabela: CR.Tabela, dataHora: Instante)
    returns (escolhido: Option<int>)
    ensures escolhido.None?
        <==> forall id :: id in medicos && medicos[id].ativo ==> CR.ExistsByMedicoIdAndDataHoraAndAtivoTrue(tabela, id, dataHora)
    ensures escolhido.Some? ==>
      escolhido.value in medicos && medicos[escolhido.value].ativo
      && !CR.ExistsByMedicoIdAndDataHoraAndAtivoTrue(tabela, escolhido.value, dataHora)
  {
    var livres := Livres(medicos, tabela, dataHora);
    LivresVazio(medicos, tabela, dataHora);
    if livres == {} {
      escolhido := None;
    } else {
      var id :| id in livres;
      assert id in medicos && medicos[id].ativo && !CR.ExistsByMedicoIdAndDataHoraAndAtivoTrue(tabela, id, dataHora);
      escolhido := Some(id);
    }
  }

  /** The free set is empty exactly when every active practitioner has an
      active appointment at `dataHora`. */
  lemma LivresVazio(medicos: map<int, Medico>, tabela: CR.Tabela, dataHora: Instante)
    ensures Livres(medicos, tabela, dataHora) == {}
        <==> forall id :: id in medicos && medicos[id].ativo ==> CR.ExistsByMedicoIdAndDataHoraAndAtivoTrue(tabela, id, dataHora)
  {
    var livres := Livres(medicos, tabela, dataHora);
    if livres == {} {
      forall id | id in medicos && medicos[id].ativo
        ensures CR.ExistsByMedicoIdAndDataHoraAndAtivoTrue(tabela, id, dataHora)
      {
        assert id !in livres;
      }
    } else {
      var id :| id in livres;
      assert !CR.ExistsByMedicoIdAndDataHoraAndAtivoTrue(tabela, id, dataHora);
    }
  }

  /** Every free practitioner is active. */
  lemma LivresSaoAtivos(medicos: map<int, Medico>, tabela: CR.Tabela, dataHora: Instante)
    ensures Livres(medicos, tabela, dataHora) <= FindAllByAtivoTrue(medicos)
    ensures forall id :: id in FindAllByAtivoTrue(medicos) ==> id in medicos && medicos[id].ativo
  {
  }

  /** A cancelled appointment does not make its practitioner busy: cancelling
      can only add practitioners to the free set. */
  lemma CanceladaNaoOcupa(medicos: map<int, Medico>, tabela: CR.Tabela, k: int, motivo: MotivoCancelamento, dataHora: Instante)
    requires k in tabela
    ensures Livres(medicos, tabela, dataHora) <= Livres(medicos, tabela[k := tabela[k].Cancelada(motivo)], dataHora)
    ensures tabela[k].medico in medicos && medicos[tabela[k].medico].ativo
        && (forall j :: j in tabela && j != k && tabela[j].medico == tabela[k].medico && tabela[j].ativo ==> tabela[j].dataHora != dataHora)
        ==> tabela[k].medico in Livres(medicos, tabela[k := tabela[k].Cancelada(motivo)], dataHora)
  {
    var depois := tabela[k := tabela[k].Cancelada(motivo)];
    forall id | id in Livres(medicos, tabela, dataHora)
      ensures id in Livres(medicos, depois, dataHora)
    {
      CR.CancelamentoNaoCriaConflitoDoMedico(tabela, k, motivo, id, dataHora);
    }
  }
}
